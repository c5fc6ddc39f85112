/** The field registry of src/field.c: named descriptors that count the references to them. */
module Fields {
  import opened Bytes
  import Operations
  import E = Engine

  /** struct field */
  class Field {
    const name: string
    const fs: Operations.FieldSet
    var refcnt: nat

    constructor (name: string, fs: Operations.FieldSet)
      ensures this.name == name && this.fs == fs && refcnt == 0
    {
      this.name, this.fs, refcnt := name, fs, 0;
    }
  }

  function FieldName(f: Field?): Option<string> {
    if f == null then None else Some(f.name)
  }

  /** One more reference, if there is one. */
  ghost function PlusField(refs: multiset<Field>, f: Field?): multiset<Field> {
    if f == null then refs else refs[f := refs[f] + 1]
  }

  lemma PlusTwoFields(refs: multiset<Field>, f: Field, g: Field?)
    ensures var r := PlusField(PlusField(refs, f), g);
      r[f] > 0 && r[f := r[f] - 1] == PlusField(refs, g)
  {
  }

  ghost predicate InFields(f: Field, fields: map<string, Field>) {
    f.name in fields && fields[f.name] == f
  }

  /** The registry is keyed by name, holds valid descriptors, and covers all references. */
  ghost predicate FieldsRegistered(refs: multiset<Field>, fields: map<string, Field>) {
    && (forall n :: n in fields ==> fields[n].name == n && E.ValidField(fields[n].fs))
    && (forall f :: f in refs ==> InFields(f, fields))
  }

  ghost function FieldSets(fields: map<string, Field>): map<string, Operations.FieldSet> {
    map n | n in fields :: fields[n].fs
  }

  class FieldTable {
    const lib: E.Library
    var fieldJS: map<string, Field>
    ghost var refs: multiset<Field>  // the references taken and not yet released
    ghost var repr: set<Field>       // the objects this table may change

    ghost predicate Inv()
      reads this, repr`refcnt
    {
      && FieldsRegistered(refs, fieldJS)
      && (forall n :: n in fieldJS ==> fieldJS[n] in repr)
      && forall n :: n in fieldJS ==> fieldJS[n].refcnt == refs[fieldJS[n]]
    }

    constructor (lib: E.Library)
      ensures this.lib == lib && Inv() && fieldJS == map[] && refs == multiset{} && repr == {}
    {
      this.lib, fieldJS, refs, repr := lib, map[], multiset{}, {};
    }

    /** field_new() */
    method New(name: string, offt: int, len: int, mask: int) returns (f: Field?)
      requires Inv()
      modifies this`fieldJS, this`repr
      ensures Inv() && fresh(repr - old(repr))
      ensures var fs := E.FieldOf(offt, len, mask);
        if name in old(fieldJS) || !lib.fits(name) || fs.None? then f == null && fieldJS == old(fieldJS)
        else f != null && fieldJS == old(fieldJS)[name := f] && f.fs == fs.value
    {
      if name in fieldJS {
        return null;
      }
      var full := if mask == 0 then 0xff else mask;
      if !lib.fits(name) {
        return null;
      }
      if !(-0x8000_0000 <= offt < 0x8000_0000) || !(0 <= len < 0x1_0000) || !(0 <= full < 0x100) {
        return null;
      }
      f := new Field(name, Operations.FieldSet(offt, len, full, 0));
      fieldJS, repr := fieldJS[name := f], repr + {f};
    }

    lemma Registered()
      requires Inv()
      ensures FieldsRegistered(refs, fieldJS)
    {
    }

    lemma RegisteredIn(n: string)
      requires Inv() && n in fieldJS
      ensures fieldJS[n].name == n && InFields(fieldJS[n], fieldJS) && E.ValidField(fieldJS[n].fs) && fieldJS[n] in repr
    {
    }

    /** field_get() */
    method Get(name: string) returns (f: Field?)
      requires Inv()
      modifies this`refs, repr`refcnt
      ensures Inv()
      ensures f == if name in fieldJS then fieldJS[name] else null
      ensures refs == PlusField(old(refs), f)
    {
      if name !in fieldJS {
        return null;
      }
      f := fieldJS[name];
      f.refcnt := f.refcnt + 1;
      refs := refs[f := refs[f] + 1];
    }

    /** field_release() */
    method Release(f: Field?)
      requires Inv() && (f != null ==> f in refs)
      modifies this`refs, repr`refcnt
      ensures Inv()
      ensures refs == if f == null then old(refs) else old(refs)[f := old(refs)[f] - 1]
    {
      if f == null {
        return;
      }
      if f.refcnt != 0 {
        f.refcnt := f.refcnt - 1;
      }
      refs := refs[f := refs[f] - 1];
    }

    /** The guard of field_parse() on deletion, and field_free(). */
    method Delete(name: string) returns (ok: bool)
      requires Inv()
      modifies this`fieldJS
      ensures Inv()
      ensures ok <==> name in old(fieldJS) && old(fieldJS)[name] !in refs
      ensures fieldJS == if ok then old(fieldJS) - {name} else old(fieldJS)
    {
      if name !in fieldJS || fieldJS[name].refcnt != 0 {
        return false;
      }
      fieldJS := fieldJS - {name};
      ok := true;
    }
  }
}
