/** The package-level table from command names to handlers
    (cli/registry.go). The Go table is a global variable; here it is a value
    that registration returns updated. */
module CliRegistry {
  import opened Wrappers
  import opened Collections
  import opened CliApp

  /** Registered names and what was registered under each. Go can store a nil
      function under a name, so the stored value is itself optional: the name
      is then listed but looks up as nil. */
  datatype Registry = Registry(handlers: map<string, Option<HandlerId>>)

  const EmptyRegistry := Registry(map[])

  /** `Lookup`: the handler stored under the name, nil (`None`) when none is. */
  function Lookup(reg: Registry, name: string): (r: Option<HandlerId>)
    ensures name !in reg.handlers ==> r == None
    ensures name in reg.handlers ==> r == reg.handlers[name]
  {
    if name in reg.handlers then reg.handlers[name] else None
  }

  /** `Register`: afterwards the name looks up as `f`, it is listed, and no
      other name's lookup or listing changes. */
  function Register(reg: Registry, name: string, f: Option<HandlerId>): (r: Registry)
    ensures Lookup(r, name) == f
    ensures forall m :: m != name ==> Lookup(r, m) == Lookup(reg, m)
    ensures r.handlers.Keys == reg.handlers.Keys + {name}
  {
    Registry(reg.handlers[name := f])
  }

  /** Registering a name again replaces the first registration outright. */
  lemma ReRegisterReplaces(reg: Registry, name: string, f: Option<HandlerId>, g: Option<HandlerId>)
    ensures Register(Register(reg, name, f), name, g) == Register(reg, name, g)
  {
  }

  /** A sequence of registrations, applied in order. The names listed
      afterwards are the ones listed before and every name registered, and a
      name no registration mentions keeps its lookup. */
  function RegisterAll(reg: Registry, regs: seq<(string, Option<HandlerId>)>): (r: Registry)
    ensures r.handlers.Keys == reg.handlers.Keys + (set i | 0 <= i < |regs| :: regs[i].0)
    ensures forall m :: (forall i :: 0 <= i < |regs| ==> regs[i].0 != m) ==> Lookup(r, m) == Lookup(reg, m)
    decreases |regs|
  {
    if |regs| == 0 then reg
    else
      var last := regs[|regs| - 1];
      var front := regs[..|regs| - 1];
      assert (set i | 0 <= i < |regs| :: regs[i].0) == (set i | 0 <= i < |front| :: front[i].0) + {last.0};
      Register(RegisterAll(reg, front), last.0, last.1)
  }

  /** The handler last registered under a name, if any registration names it. */
  function LastRegistered(regs: seq<(string, Option<HandlerId>)>, name: string): Option<Option<HandlerId>>
    decreases |regs|
  {
    if |regs| == 0 then None
    else if regs[|regs| - 1].0 == name then Some(regs[|regs| - 1].1)
    else LastRegistered(regs[..|regs| - 1], name)
  }

  /** Starting from the empty table, a name looks up as the handler last
      registered under it, and as nil when it was never registered; the names
      listed are exactly the names ever registered. */
  lemma {:induction false} LookupAfterRegistrations(regs: seq<(string, Option<HandlerId>)>, name: string)
    ensures Lookup(RegisterAll(EmptyRegistry, regs), name) == LastRegistered(regs, name).GetOr(None)
    ensures name in RegisterAll(EmptyRegistry, regs).handlers <==> LastRegistered(regs, name).Some?
    decreases |regs|
  {
    if |regs| > 0 {
      LookupAfterRegistrations(regs[..|regs| - 1], name);
    }
  }

  /** `CommandNames`: every registered name exactly once, in the arbitrary
      order of a Go map range loop. */
  method CommandNames(reg: Registry) returns (names: seq<string>)
    ensures IsEnumeration(names, reg.handlers.Keys)
    ensures |names| == |reg.handlers|
  {
    names := Enumerate(reg.handlers.Keys);
  }
}
