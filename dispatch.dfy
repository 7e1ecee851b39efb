/**
 * The two extension points a command passes through (`slashpress.php`): the
 * response filters (`slashpress_command_<name>`, then `slashpress_command`)
 * and the help actions (`slashpress_help_<name>`, then `slashpress_help`).
 * A hooked handler is modelled as a pure function of what it is shown,
 * returning the operations it performs on the command object.
 */
module Dispatch {
  import opened Php
  import opened Assoc
  import opened Commands

  /** A response filter: sees the command and the response so far, returns its operations and the new response. */
  type ResponseFilter = (CommandValue, Response) -> (seq<Op>, Response)

  /** A help action: sees the command and the normalised help terms, returns its operations. */
  type HelpAction = (CommandValue, string) -> seq<Op>

  /** The handlers hooked in, each list in the order WordPress calls them. */
  datatype Registry = Registry(
    commandFilters: map<string, seq<ResponseFilter>>,
    anyCommandFilters: seq<ResponseFilter>,
    helpActions: map<string, seq<HelpAction>>,
    anyHelpActions: seq<HelpAction>)

  /** The handlers hooked on a command-specific hook; none when nothing is hooked. */
  function Hooked<H>(m: map<string, seq<H>>, name: string): seq<H> {
    if name in m then m[name] else []
  }

  /** `apply_filters`: each filter in turn gets the previous one's response. */
  function RunFilters(c: CommandValue, fs: seq<ResponseFilter>, r: Response): (CommandValue, Response) {
    if fs == [] then (c, r)
    else
      var (c', r') := RunFilters(c, fs[..|fs| - 1], r);
      var (ops, r'') := fs[|fs| - 1](c', r');
      (ApplyOps(c', ops), r'')
  }

  /** `do_action`: each action in turn sees the command as the previous ones left it. */
  function RunActions(c: CommandValue, hs: seq<HelpAction>, terms: string): CommandValue {
    if hs == [] then c
    else
      var c' := RunActions(c, hs[..|hs| - 1], terms);
      ApplyOps(c', hs[|hs| - 1](c', terms))
  }

  /** The dispatch: specific filters from `''`, then the generic ones only if no handler claimed the command. */
  function Dispatched(reg: Registry, c: CommandValue): (CommandValue, Response) {
    var (c1, r1) := RunFilters(c, Hooked(reg.commandFilters, c.name), Text(""));
    if !c1.known then RunFilters(c1, reg.anyCommandFilters, r1) else (c1, r1)
  }

  /** Help gathering: specific actions, then the generic ones only if no help was added. */
  function HelpGathered(reg: Registry, c: CommandValue, terms: string): CommandValue {
    var c1 := RunActions(c, Hooked(reg.helpActions, c.name), terms);
    if c1.help == [] then RunActions(c1, reg.anyHelpActions, terms) else c1
  }

  /** One `apply_filters` call on the live command object. */
  method RunFilterHook(cmd: Command, fs: seq<ResponseFilter>, r0: Response) returns (r: Response)
    modifies cmd
    ensures (cmd.Snapshot(), r) == RunFilters(old(cmd.Snapshot()), fs, r0)
  {
    r := r0;
    var i := 0;
    while i < |fs|
      invariant 0 <= i <= |fs|
      invariant (cmd.Snapshot(), r) == RunFilters(old(cmd.Snapshot()), fs[..i], r0)
    {
      assert fs[..i + 1][..i] == fs[..i];
      var (ops, r') := fs[i](cmd.Snapshot(), r);
      cmd.ApplyAll(ops);
      r := r';
      i := i + 1;
    }
    assert fs[..|fs|] == fs;
  }

  /** One `do_action` call on the live command object. */
  method RunActionHook(cmd: Command, hs: seq<HelpAction>, terms: string)
    modifies cmd
    ensures cmd.Snapshot() == RunActions(old(cmd.Snapshot()), hs, terms)
  {
    var i := 0;
    while i < |hs|
      invariant 0 <= i <= |hs|
      invariant cmd.Snapshot() == RunActions(old(cmd.Snapshot()), hs[..i], terms)
    {
      assert hs[..i + 1][..i] == hs[..i];
      var ops := hs[i](cmd.Snapshot(), terms);
      cmd.ApplyAll(ops);
      i := i + 1;
    }
    assert hs[..|hs|] == hs;
  }

  /** The two response hooks, the second behind `if (!$slash->known)`. */
  method DispatchCommand(cmd: Command, reg: Registry) returns (r: Response)
    modifies cmd
    ensures (cmd.Snapshot(), r) == Dispatched(reg, old(cmd.Snapshot()))
  {
    r := RunFilterHook(cmd, Hooked(reg.commandFilters, cmd.name), Text(""));
    if !cmd.known {
      r := RunFilterHook(cmd, reg.anyCommandFilters, r);
    }
  }

  /** The two help hooks, the second behind `if (!$slash->help)`. */
  method GatherHelp(cmd: Command, reg: Registry, terms: string)
    modifies cmd
    ensures cmd.Snapshot() == HelpGathered(reg, old(cmd.Snapshot()), terms)
  {
    RunActionHook(cmd, Hooked(reg.helpActions, cmd.name), terms);
    if cmd.help == [] {
      RunActionHook(cmd, reg.anyHelpActions, terms);
    }
  }

  // ---------------------------------------------------------------- lemmas

  /**
   * What handlers cannot change: which command it is, who sent it and
   * where to answer; and a help array without repeated topics stays so.
   */
  ghost predicate SameCommand(a: CommandValue, b: CommandValue) {
    && a.serviceId == b.serviceId && a.name == b.name && a.responseUrl == b.responseUrl && a.data == b.data
    && (UniqueKeys(b.help) ==> UniqueKeys(a.help))
  }

  lemma {:induction false} ApplyOpsSameCommand(c: CommandValue, ops: seq<Op>)
    ensures SameCommand(ApplyOps(c, ops), c)
  {
    if ops != [] {
      ApplyOpsSameCommand(c, ops[..|ops| - 1]);
      var c' := ApplyOps(c, ops[..|ops| - 1]);
      match ops[|ops| - 1]
      case SetProperty(_, _) =>
      case AddHelp(topics, text) =>
        AddHelpTopicsKeys(c'.help, topics, text);
    }
  }

  lemma {:induction false} RunFiltersSameCommand(c: CommandValue, fs: seq<ResponseFilter>, r: Response)
    ensures SameCommand(RunFilters(c, fs, r).0, c)
  {
    if fs != [] {
      RunFiltersSameCommand(c, fs[..|fs| - 1], r);
      var (c', r') := RunFilters(c, fs[..|fs| - 1], r);
      ApplyOpsSameCommand(c', fs[|fs| - 1](c', r').0);
    }
  }

  lemma {:induction false} RunActionsSameCommand(c: CommandValue, hs: seq<HelpAction>, terms: string)
    ensures SameCommand(RunActions(c, hs, terms), c)
  {
    if hs != [] {
      RunActionsSameCommand(c, hs[..|hs| - 1], terms);
      var c' := RunActions(c, hs[..|hs| - 1], terms);
      ApplyOpsSameCommand(c', hs[|hs| - 1](c', terms));
    }
  }

  /** Dispatch and help gathering keep the command's identity and its topics unique. */
  lemma DispatchSameCommand(reg: Registry, c: CommandValue, terms: string)
    ensures SameCommand(Dispatched(reg, c).0, c)
    ensures SameCommand(HelpGathered(reg, c, terms), c)
  {
    var (c1, r1) := RunFilters(c, Hooked(reg.commandFilters, c.name), Text(""));
    RunFiltersSameCommand(c, Hooked(reg.commandFilters, c.name), Text(""));
    RunFiltersSameCommand(c1, reg.anyCommandFilters, r1);
    var h1 := RunActions(c, Hooked(reg.helpActions, c.name), terms);
    RunActionsSameCommand(c, Hooked(reg.helpActions, c.name), terms);
    RunActionsSameCommand(h1, reg.anyHelpActions, terms);
  }

  /**
   * The generic filters are consulted only while the command-specific ones
   * left the command unknown: a claimed command gets the same dispatch
   * whatever generic filters are hooked, and an unclaimed one gets exactly
   * the generic filters' fold, started from the specific response.
   */
  lemma GenericFiltersOnlyIfUnknown(reg: Registry, c: CommandValue, generic: seq<ResponseFilter>)
    ensures var specific := RunFilters(c, Hooked(reg.commandFilters, c.name), Text(""));
      specific.0.known ==> Dispatched(reg.(anyCommandFilters := generic), c) == specific
    ensures var specific := RunFilters(c, Hooked(reg.commandFilters, c.name), Text(""));
      !specific.0.known ==> Dispatched(reg.(anyCommandFilters := generic), c) == RunFilters(specific.0, generic, specific.1)
  {
    assert Hooked(reg.(anyCommandFilters := generic).commandFilters, c.name) == Hooked(reg.commandFilters, c.name);
  }

  /** A filter that never assigns a falsy value to `known`. */
  ghost predicate NeverDisowns(fs: seq<ResponseFilter>) {
    forall i, c, r :: 0 <= i < |fs| ==> SetProperty("known", false) !in fs[i](c, r).0
  }

  /** Operations that never assign a falsy `known` keep a claimed command claimed. */
  lemma {:induction false} ApplyOpsKeepsKnown(c: CommandValue, ops: seq<Op>)
    requires c.known && SetProperty("known", false) !in ops
    ensures ApplyOps(c, ops).known
  {
    if ops != [] {
      assert SetProperty("known", false) !in ops[..|ops| - 1];
      ApplyOpsKeepsKnown(c, ops[..|ops| - 1]);
    }
  }

  /**
   * Once a command is claimed, filters that never disown it leave it
   * claimed: setting `handled`, even to a falsy value, keeps `known`.
   */
  lemma {:induction false} RunFiltersKeepsKnown(c: CommandValue, fs: seq<ResponseFilter>, r: Response)
    requires c.known && NeverDisowns(fs)
    ensures RunFilters(c, fs, r).0.known
  {
    if fs != [] {
      var init := fs[..|fs| - 1];
      assert NeverDisowns(init) by {
        forall i, c', r' | 0 <= i < |init| ensures SetProperty("known", false) !in init[i](c', r').0 {
          assert init[i] == fs[i];
        }
      }
      RunFiltersKeepsKnown(c, init, r);
      var (c', r') := RunFilters(c, init, r);
      ApplyOpsKeepsKnown(c', fs[|fs| - 1](c', r').0);
    }
  }

  /** With nothing hooked on either hook the command stays as built and the response is `''`. */
  lemma NothingHooked(reg: Registry, c: CommandValue, terms: string)
    requires c.name !in reg.commandFilters && reg.anyCommandFilters == []
    requires c.name !in reg.helpActions && reg.anyHelpActions == []
    ensures Dispatched(reg, c) == (c, Text(""))
    ensures HelpGathered(reg, c, terms) == c
  {
  }

  /**
   * The generic help actions are consulted only while the specific ones added
   * no help: once there is help, the generic actions hooked make no
   * difference; otherwise they run on what the specific ones left.
   */
  lemma GenericHelpOnlyIfNoHelp(reg: Registry, c: CommandValue, terms: string, generic: seq<HelpAction>)
    ensures var specific := RunActions(c, Hooked(reg.helpActions, c.name), terms);
      specific.help != [] ==> HelpGathered(reg.(anyHelpActions := generic), c, terms) == specific
    ensures var specific := RunActions(c, Hooked(reg.helpActions, c.name), terms);
      specific.help == [] ==> HelpGathered(reg.(anyHelpActions := generic), c, terms) == RunActions(specific, generic, terms)
  {
    assert Hooked(reg.(anyHelpActions := generic).helpActions, c.name) == Hooked(reg.helpActions, c.name);
  }

  /** A help list some action filled is never emptied afterwards by help gathering. */
  lemma {:induction false} RunActionsKeepsHelp(c: CommandValue, hs: seq<HelpAction>, terms: string)
    requires c.help != []
    ensures RunActions(c, hs, terms).help != []
  {
    if hs != [] {
      RunActionsKeepsHelp(c, hs[..|hs| - 1], terms);
      var c' := RunActions(c, hs[..|hs| - 1], terms);
      ApplyOpsKeepsHelp(c', hs[|hs| - 1](c', terms));
    }
  }

  lemma {:induction false} ApplyOpsKeepsHelp(c: CommandValue, ops: seq<Op>)
    requires c.help != []
    ensures ApplyOps(c, ops).help != []
  {
    if ops != [] {
      ApplyOpsKeepsHelp(c, ops[..|ops| - 1]);
      var c' := ApplyOps(c, ops[..|ops| - 1]);
      match ops[|ops| - 1]
      case SetProperty(_, _) =>
      case AddHelp(topics, text) =>
        AddHelpTopicsKeepsHelp(c'.help, topics, text);
    }
  }

  lemma {:induction false} AddHelpTopicsKeepsHelp(help: Assoc<string, seq<string>>, topics: seq<string>, text: string)
    requires help != []
    ensures AddHelpTopics(help, topics, text) != []
  {
    if topics != [] {
      AddHelpTopicsKeepsHelp(help, topics[..|topics| - 1], text);
      AppendAtKeys(AddHelpTopics(help, topics[..|topics| - 1], text), topics[|topics| - 1], text);
    }
  }
}
