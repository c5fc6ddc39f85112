/** Memory references of src/memref.c: literal values, and named states shared by counted references. */
module States {
  import opened Bytes
  import Operations
  import Fields
  import E = Engine

  /** MEMREF_FLAG_STATIC */
  const STATIC := 1

  /** struct memref: a named state or the octets of a literal value, told apart by a flag. */
  class Memref {
    const name: string
    const input: string
    const fs: Operations.FieldSet
    const octets: array<byte>
    var refcnt: nat

    predicate IsValue() {
      fs.flags % 2 == STATIC
    }

    constructor State(name: string, field: Fields.Field)
      requires E.ValidField(field.fs)
      ensures this.name == name && fs == field.fs && refcnt == 0
      ensures fresh(octets) && octets[..] == E.Zeros(fs.len)
    {
      this.name, this.input, this.fs, refcnt := name, "", field.fs, 0;
      octets := new byte[field.fs.len](_ => 0);
    }

    constructor Value(input: string, field: Fields.Field, parsed: seq<byte>)
      requires E.ValidField(field.fs) && |parsed| == field.fs.len
      ensures this.input == input && fs == field.fs.(flags := STATIC)
      ensures fresh(octets) && octets[..] == parsed
    {
      this.name, this.input, this.fs, refcnt := "", input, field.fs.(flags := STATIC), 0;
      octets := new byte[|parsed|](i requires 0 <= i < |parsed| => parsed[i]);
    }
  }

  function StateName(m: Memref?): Option<string> {
    if m == null || m.IsValue() then None else Some(m.name)
  }

  function ValueText(m: Memref?): Option<string> {
    if m == null || !m.IsValue() then None else Some(m.input)
  }

  /** A reference that counts; literal values are owned, not counted. */
  ghost predicate Counted(m: Memref?) {
    m != null && !m.IsValue()
  }

  /** One more reference, if it counts. */
  ghost function PlusState(refs: multiset<Memref>, m: Memref?): multiset<Memref> {
    if Counted(m) then refs[m := refs[m] + 1] else refs
  }

  lemma PlusTwoStates(refs: multiset<Memref>, m: Memref, n: Memref?)
    requires Counted(m)
    ensures var r := PlusState(PlusState(refs, m), n);
      r[m] > 0 && r[m := r[m] - 1] == PlusState(refs, n)
  {
  }

  ghost predicate InStates(m: Memref, states: map<string, Memref>) {
    m.name in states && states[m.name] == m
  }

  /** The registry holds exactly the states someone refers to. */
  ghost predicate StatesRegistered(refs: multiset<Memref>, states: map<string, Memref>) {
    && (forall n :: n in states ==> states[n].name == n && states[n] in refs)
    && (forall m :: m in refs ==> InStates(m, states))
    && (forall n :: n in states ==> !states[n].IsValue() && states[n].octets.Length == states[n].fs.len)
  }

  /** Hence it is determined by the references. */
  lemma StatesDetermined(refs: multiset<Memref>, s: map<string, Memref>, t: map<string, Memref>)
    requires StatesRegistered(refs, s) && StatesRegistered(refs, t)
    ensures s == t
  {
    assert forall n :: n in s ==> n in t && t[n] == s[n];
    assert forall n :: n in t ==> n in s;
  }

  lemma RegisteredState(refs: multiset<Memref>, states: map<string, Memref>, n: string)
    requires StatesRegistered(refs, states) && n in states
    ensures states[n].name == n && InStates(states[n], states) && Counted(states[n])
  {
  }

  /** A state leaves the registry with its last reference. */
  lemma ReleaseOne(refs: multiset<Memref>, states: map<string, Memref>, m: Memref)
    requires StatesRegistered(refs, states) && m in refs
    ensures InStates(m, states) && forall n :: n in states && n != m.name ==> states[n] != m
    ensures StatesRegistered(refs[m := refs[m] - 1], if refs[m] == 1 then states - {m.name} else states)
  {
  }

  /** A new state enters it with its first. */
  lemma PublishOne(refs: multiset<Memref>, states: map<string, Memref>, m: Memref)
    requires StatesRegistered(refs, states) && m.name !in states
    requires !m.IsValue() && m.octets.Length == m.fs.len
    ensures m !in refs && (forall n :: n in states ==> states[n] != m)
    ensures StatesRegistered(refs[m := refs[m] + 1], states[m.name := m])
  {
  }

  ghost predicate Extends(a: map<string, Memref>, b: map<string, Memref>) {
    forall n :: n in a ==> n in b && b[n] == a[n]
  }

  /** memref_state_eq() */
  predicate SameExtent(a: Operations.FieldSet, b: Operations.FieldSet) {
    a.len == b.len && a.mask == b.mask
  }

  ghost function StateDefs(states: map<string, Memref>): map<string, E.StateDef>
    reads set n | n in states :: states[n].octets
  {
    map n | n in states :: E.StateDef(states[n].fs.len, states[n].fs.mask, states[n].octets[..])
  }

  twostate lemma DefsKept(states: map<string, Memref>)
    requires forall n :: n in states ==> old(allocated(states[n].octets)) && unchanged(states[n].octets)
    ensures StateDefs(states) == old(StateDefs(states))
  {
  }

  lemma DefsAdd(states: map<string, Memref>, m: Memref)
    requires m.name !in states
    ensures StateDefs(states[m.name := m]) == StateDefs(states)[m.name := E.StateDef(m.fs.len, m.fs.mask, m.octets[..])]
  {
  }

  class StateTable {
    const lib: E.Library
    var stateJS: map<string, Memref>
    ghost var refs: multiset<Memref>
    ghost var repr: set<Memref>               // the objects this table may change
    ghost var home: map<array<byte>, Memref>  // the state a buffer belongs to

    ghost predicate Inv()
      reads this, repr`refcnt
    {
      && StatesRegistered(refs, stateJS)
      && (forall n :: n in stateJS ==> stateJS[n] in repr && stateJS[n].octets in home && home[stateJS[n].octets] == stateJS[n])
      && forall n :: n in stateJS ==> stateJS[n].refcnt == refs[stateJS[n]]
    }

    constructor (lib: E.Library)
      ensures this.lib == lib && Inv() && stateJS == map[] && refs == multiset{} && repr == {} && home == map[]
    {
      this.lib, stateJS, refs, repr, home := lib, map[], multiset{}, {}, map[];
    }

    lemma Registered()
      requires Inv()
      ensures StatesRegistered(refs, stateJS)
    {
    }

    lemma RegisteredIn(n: string)
      requires Inv() && n in stateJS
      ensures stateJS[n].name == n && InStates(stateJS[n], stateJS) && Counted(stateJS[n]) && stateJS[n] in repr
    {
      RegisteredState(refs, stateJS, n);
    }

    /** The registry is the only one its references allow. */
    lemma Determined(other: map<string, Memref>)
      requires Inv() && StatesRegistered(refs, other)
      ensures stateJS == other
    {
      StatesDetermined(refs, stateJS, other);
    }

    /** memref_state_get() */
    method Get(field: Fields.Field, name: string) returns (m: Memref?)
      requires Inv() && E.ValidField(field.fs)
      modifies this`stateJS, this`refs, this`repr, this`home, repr`refcnt
      ensures Inv() && fresh(repr - old(repr)) && fresh(home.Keys - old(home.Keys))
      ensures refs == PlusState(old(refs), m)
      ensures m != null ==> m.name == name && !m.IsValue() && SameExtent(m.fs, field.fs)
      ensures E.GetState(lib, old(StateDefs(stateJS)), name, field.fs) == if m == null then None else Some(StateDefs(stateJS))
      ensures m == null ==> stateJS == old(stateJS)
      ensures Extends(old(stateJS), stateJS)
      ensures forall n :: n in stateJS && n !in old(stateJS) ==> fresh(stateJS[n]) && fresh(stateJS[n].octets)
    {
      hide StatesRegistered, StateTable.Inv;
      ghost var before := StateDefs(stateJS);
      if name in stateJS {
        m := stateJS[name];
        RegisteredIn(name);
        assert before[name].len == m.fs.len && before[name].mask == m.fs.mask;
        if !SameExtent(m.fs, field.fs) {
          return null;
        }
        Take(m);
        DefsKept(stateJS);
      } else {
        assert name !in before;
        if !lib.fits(name) {
          return null;
        }
        m := Publish(name, field);
        DefsKept(old(stateJS));
        DefsAdd(old(stateJS), m);
      }
    }

    /** refcnt_take() on a registered state */
    method Take(m: Memref)
      requires Inv() && InStates(m, stateJS)
      modifies this`refs, m`refcnt
      ensures Inv()
      ensures refs == old(refs)[m := old(refs)[m] + 1]
    {
      m.refcnt := m.refcnt + 1;
      refs := refs[m := refs[m] + 1];
    }

    /** Registers a new state with its first reference. */
    method Publish(name: string, field: Fields.Field) returns (m: Memref)
      requires Inv() && E.ValidField(field.fs) && name !in stateJS
      modifies this`stateJS, this`refs, this`repr, this`home
      ensures Inv() && fresh(repr - old(repr)) && fresh(home.Keys - old(home.Keys))
      ensures fresh(m) && fresh(m.octets) && m.name == name && m.fs == field.fs
      ensures stateJS == old(stateJS)[name := m] && refs == old(refs)[m := old(refs)[m] + 1]
      ensures m.octets[..] == E.Zeros(field.fs.len)
    {
      hide StatesRegistered;
      m := new Memref.State(name, field);
      m.refcnt := 1;
      PublishOne(refs, stateJS, m);
      stateJS, repr, home := stateJS[name := m], repr + {m}, home[m.octets := m];
      refs := refs[m := refs[m] + 1];
    }

    /** memref_release() */
    method Release(m: Memref?)
      requires Inv() && (Counted(m) ==> m in refs)
      modifies this`stateJS, this`refs, repr`refcnt
      ensures Inv()
      ensures refs == if Counted(m) then old(refs)[m := old(refs)[m] - 1] else old(refs)
      ensures Extends(stateJS, old(stateJS))
    {
      if m != null && !m.IsValue() {
        ReleaseState(m);
      }
    }

    /** The part of memref_release() for a named state. */
    method ReleaseState(m: Memref)
      requires Inv() && m in refs
      modifies this`stateJS, this`refs, m`refcnt
      ensures Inv()
      ensures refs == old(refs)[m := old(refs)[m] - 1]
      ensures Extends(stateJS, old(stateJS))
    {
      hide StatesRegistered;
      ReleaseOne(refs, stateJS, m);
      refs := refs[m := refs[m] - 1];
      if m.refcnt != 0 {
        m.refcnt := m.refcnt - 1;
        if m.refcnt != 0 {
          return;
        }
      }
      if m.name in stateJS && stateJS[m.name] == m {
        stateJS := stateJS - {m.name};
      }
    }

    /** memref_value_new() */
    method Literal(field: Fields.Field, text: string) returns (m: Memref?)
      requires E.ValidField(field.fs) && lib.Sound()
      ensures m != null ==> m.IsValue() && m.input == text && m.fs.len == field.fs.len && fresh(m) && fresh(m.octets)
      ensures lib.parse(text, field.fs.len) == if m == null then None else Some(m.octets[..])
    {
      var parsed := lib.parse(text, field.fs.len);
      if parsed.None? {
        return null;
      }
      m := new Memref.Value(text, field, parsed.value);
    }
  }
}
