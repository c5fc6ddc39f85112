/** The interface registry of src/iface.c; sockets are left out but for whether opening one succeeds. */
module Ifaces {
  import Rules
  import E = Engine

  /** struct iface */
  class Iface {
    const name: string
    var refcnt: nat
    var handler: bool             // process_exec() is the only handler there is
    var context: seq<RoutSet>     // the queue it is called with
    var pktIn: nat
    var pktOut: nat
    var checkfail: nat
    var sockdrop: nat

    constructor (name: string)
      ensures this.name == name && refcnt == 0 && !handler
      ensures CountersOf(this) == E.Counters(0, 0, 0, 0)
    {
      this.name, refcnt, handler, context := name, 0, false, [];
      pktIn, pktOut, checkfail, sockdrop := 0, 0, 0, 0;
    }
  }

  /** struct rout_set: the compiled form of a (rule, output) pair. */
  class RoutSet {
    const ifOut: Iface
    const matches: seq<Rules.Op>
    const writes: seq<Rules.Op>
    var countMatch: nat

    constructor (rule: Rules.Rule, output: Iface)
      ensures ifOut == output && matches == rule.matches && writes == rule.writes && countMatch == 0
    {
      ifOut, matches, writes, countMatch := output, rule.matches, rule.writes, 0;
    }
  }

  ghost function CountersOf(i: Iface): E.Counters
    reads i`pktIn, i`pktOut, i`checkfail, i`sockdrop
  {
    E.Counters(i.pktIn, i.pktOut, i.checkfail, i.sockdrop)
  }

  ghost predicate InIfaces(i: Iface, ifaces: map<string, Iface>) {
    i.name in ifaces && ifaces[i.name] == i
  }

  ghost predicate IfacesRegistered(refs: multiset<Iface>, ifaces: map<string, Iface>) {
    && (forall n :: n in ifaces ==> ifaces[n].name == n)
    && (forall i :: i in refs ==> InIfaces(i, ifaces))
  }

  ghost function PlusIface(refs: multiset<Iface>, i: Iface?): multiset<Iface> {
    if i == null then refs else refs[i := refs[i] + 1]
  }

  ghost function MinusIface(refs: multiset<Iface>, i: Iface): multiset<Iface>
    requires i in refs
  {
    refs[i := refs[i] - 1]
  }

  /** iface_handler_register(): zero on success. */
  method HandlerRegister(i: Iface, context: seq<RoutSet>) returns (rc: int)
    modifies i`handler, i`context
    ensures rc == 0 <==> !old(i.handler) || old(i.context) == context
    ensures if rc == 0 then i.handler && i.context == context else i.handler == old(i.handler) && i.context == old(i.context)
  {
    if i.handler && i.context != context {
      return 1;
    }
    i.handler, i.context := true, context;
    rc := 0;
  }

  /** iface_handler_clear(): refused unless the same handler is installed. */
  method HandlerClear(i: Iface, context: seq<RoutSet>) returns (rc: int)
    modifies i`handler, i`context
    ensures rc == 0 <==> old(i.handler) && old(i.context) == context
    ensures if rc == 0 then !i.handler else i.handler == old(i.handler) && i.context == old(i.context)
  {
    if !i.handler || i.context != context {
      return 1;
    }
    i.handler, i.context := false, [];
    rc := 0;
  }

  class IfaceTable {
    const lib: E.Library
    var ifaceJS: map<string, Iface>
    ghost var refs: multiset<Iface>
    ghost var repr: set<Iface>

    ghost predicate Inv()
      reads this, repr`refcnt
    {
      && IfacesRegistered(refs, ifaceJS)
      && (forall n :: n in ifaceJS ==> ifaceJS[n] in repr && ifaceJS[n].refcnt == refs[ifaceJS[n]])
    }

    lemma Registered()
      requires Inv()
      ensures IfacesRegistered(refs, ifaceJS)
    {
    }

    lemma RegisteredIn(n: string)
      requires Inv() && n in ifaceJS
      ensures ifaceJS[n].name == n && InIfaces(ifaceJS[n], ifaceJS) && ifaceJS[n] in repr
      ensures ifaceJS[n].refcnt == refs[ifaceJS[n]]
    {
    }

    constructor (lib: E.Library)
      ensures this.lib == lib && Inv() && ifaceJS == map[] && refs == multiset{} && repr == {}
    {
      this.lib, ifaceJS, refs, repr := lib, map[], multiset{}, {};
    }

    /** iface_new(); `opens` tells whether the socket calls succeed. */
    method New(name: string, opens: bool) returns (i: Iface?)
      requires Inv()
      modifies this`ifaceJS, this`repr
      ensures Inv() && fresh(repr - old(repr))
      ensures if name in old(ifaceJS) || !lib.fits(name) || !opens then i == null && ifaceJS == old(ifaceJS) && repr == old(repr)
        else i != null && fresh(i) && i.name == name && i in repr && old(repr) <= repr && ifaceJS == old(ifaceJS)[name := i] && !i.handler && CountersOf(i) == E.Counters(0, 0, 0, 0)
    {
      if name in ifaceJS || !lib.fits(name) || !opens {
        return null;
      }
      i := new Iface(name);
      ifaceJS, repr := ifaceJS[name := i], repr + {i};
    }

    /** iface_get() */
    method Get(name: string) returns (i: Iface?)
      requires Inv()
      modifies this`refs, repr`refcnt
      ensures Inv()
      ensures i == if name in ifaceJS then ifaceJS[name] else null
      ensures refs == PlusIface(old(refs), i)
    {
      if name !in ifaceJS {
        return null;
      }
      i := ifaceJS[name];
      i.refcnt := i.refcnt + 1;
      refs := refs[i := refs[i] + 1];
    }

    /** iface_release() */
    method Release(i: Iface?)
      requires Inv() && (i != null ==> i in refs)
      modifies this`refs, repr`refcnt
      ensures Inv()
      ensures refs == if i == null then old(refs) else MinusIface(old(refs), i)
    {
      if i == null {
        return;
      }
      if i.refcnt != 0 {
        i.refcnt := i.refcnt - 1;
      }
      refs := refs[i := refs[i] - 1];
    }

    /** The guard of iface_parse() on deletion, and iface_free(). */
    method Delete(name: string) returns (ok: bool)
      requires Inv()
      modifies this`ifaceJS
      ensures Inv()
      ensures ok <==> name in old(ifaceJS) && old(ifaceJS)[name] !in refs
      ensures ifaceJS == if ok then old(ifaceJS) - {name} else old(ifaceJS)
    {
      if name !in ifaceJS || ifaceJS[name].refcnt != 0 {
        return false;
      }
      ifaceJS := ifaceJS - {name};
      ok := true;
    }
  }
}
