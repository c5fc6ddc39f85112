/** Fields and operations as YAML mappings: what the emit functions write, and what the parse functions read. */
module Forms {
  import opened Bytes
  import Operations
  import opened Numbers
  import E = Engine
  import X = Machine

  /** A YAML document, as far as it is looked at. */
  datatype Node = Scalar(text: string) | Sequence | Mapping(pairs: seq<(string, Node)>)

  /** Text of a scalar; other nodes have none. */
  function TextOf(n: Node): Option<string> {
    if n.Scalar? then Some(n.text) else None
  }

  // ---------------------------------------------------------------- fields

  /** The arguments of field_new(); a name that is no scalar is a null address there. */
  datatype FieldArgs = FieldArgs(name: Option<string>, offt: int, len: int, mask: int)

  const NO_ARGS := FieldArgs(Some(""), 0, 0, 0)

  /** `Undefined` stands for strtol() given the null address that a value other than a scalar leaves. */
  datatype FieldRead = Read(args: FieldArgs) | Refused | Undefined

  /** One pair of a field mapping; unknown keys are reported and skipped, bad numbers end the parse. */
  function ReadFieldPair(a: FieldArgs, key: string, n: Node): FieldRead {
    if key == "field" || key == "f" then Read(a.(name := TextOf(n)))
    else if key !in ["offt", "o", "len", "l", "mask", "m"] then Read(a)
    else if !n.Scalar? then Undefined
    else
      var v := StrToL(n.text);
      if v.None? then Refused
      else if key == "offt" || key == "o" then Read(a.(offt := v.value))
      else if key == "len" || key == "l" then Read(a.(len := v.value))
      else Read(a.(mask := v.value))
  }

  function ReadField(pairs: seq<(string, Node)>): FieldRead {
    if pairs == [] then Read(NO_ARGS)
    else
      var last, r := pairs[|pairs|-1], ReadField(pairs[..|pairs|-1]);
      if r.Read? then ReadFieldPair(r.args, last.0, last.1) else r
  }

  /** The loop of field_parse(). */
  method FieldParse(pairs: seq<(string, Node)>) returns (r: FieldRead)
    ensures r == ReadField(pairs)
  {
    var name, offt, len, mask := Some(""), 0, 0, 0;
    for i := 0 to |pairs|
      invariant ReadField(pairs[..i]) == Read(FieldArgs(name, offt, len, mask))
    {
      assert pairs[..i+1][..i] == pairs[..i];
      var (key, n) := pairs[i];
      if key == "field" || key == "f" {
        name := TextOf(n);
      } else if key in ["offt", "o", "len", "l", "mask", "m"] {
        if !n.Scalar? {
          ReadEnds(pairs, i + 1);
          return Undefined;
        }
        var v := StrToL(n.text);
        if v.None? {
          ReadEnds(pairs, i + 1);
          return Refused;
        }
        if key == "offt" || key == "o" {
          offt := v.value;
        } else if key == "len" || key == "l" {
          len := v.value;
        } else {
          mask := v.value;
        }
      }
    }
    assert pairs[..|pairs|] == pairs;
    r := Read(FieldArgs(name, offt, len, mask));
  }

  lemma {:induction false} ReadEnds(pairs: seq<(string, Node)>, i: nat)
    requires i <= |pairs| && !ReadField(pairs[..i]).Read?
    ensures ReadField(pairs) == ReadField(pairs[..i])
  {
    if i == |pairs| {
      assert pairs[..i] == pairs;
    } else {
      assert pairs[..|pairs|-1][..i] == pairs[..i];
      ReadEnds(pairs[..|pairs|-1], i);
    }
  }

  /** field_emit(): a mask of 0xff is left out. */
  function FieldForm(name: string, fs: Operations.FieldSet): seq<(string, Node)> {
    [("field", Scalar(name)), ("offt", Scalar(Decimal(fs.offt))), ("len", Scalar(Decimal(fs.len)))]
    + if fs.mask != 0xff then [("mask", Scalar(Hex(fs.mask)))] else []
  }

  /** Reading an emitted field and creating it anew yields the same field. */
  lemma FieldRoundTrip(name: string, fs: Operations.FieldSet)
    requires E.ValidField(fs)
    ensures var r := ReadField(FieldForm(name, fs));
      r.Read? && r.args.name == Some(name) && E.FieldOf(r.args.offt, r.args.len, r.args.mask) == Some(fs)
  {
    hide ReadField, StrToL, Decimal, Hex;
    DecimalRead(fs.offt);
    DecimalRead(fs.len);
    HexRead(fs.mask);
    var one := [("field", Scalar(name))];
    var two := one + [("offt", Scalar(Decimal(fs.offt)))];
    var three := two + [("len", Scalar(Decimal(fs.len)))];
    ReadFieldStep([], "field", Scalar(name));
    ReadFieldStep(one, "offt", Scalar(Decimal(fs.offt)));
    ReadFieldStep(two, "len", Scalar(Decimal(fs.len)));
    ReadFieldStep(three, "mask", Scalar(Hex(fs.mask)));
    assert [] + one == one;
    assert FieldForm(name, fs) == if fs.mask != 0xff then three + [("mask", Scalar(Hex(fs.mask)))] else three;
  }

  lemma ReadFieldStep(pairs: seq<(string, Node)>, key: string, n: Node)
    ensures ReadField(pairs + [(key, n)]) ==
      if ReadField(pairs).Read? then ReadFieldPair(ReadField(pairs).args, key, n) else ReadField(pairs)
    ensures ReadField([]) == Read(NO_ARGS)
  {
    assert (pairs + [(key, n)])[..|pairs|] == pairs;
  }

  // ---------------------------------------------------------------- operations

  const NO_OP := E.OpSpec(None, None, None, None, None)

  /** A pair of the destination mapping; `bytes` is output only. None if the parse ends. */
  function ReadDstPair(op: E.OpSpec, key: string, n: Node): Option<E.OpSpec> {
    if key == "field" || key == "f" then Some(op.(dstField := TextOf(n)))
    else if key == "state" || key == "s" then Some(op.(dstState := TextOf(n)))
    else if key == "bytes" then Some(op)
    else None
  }

  function ReadSrcPair(op: E.OpSpec, key: string, n: Node): Option<E.OpSpec> {
    if key == "field" || key == "f" then Some(op.(srcField := TextOf(n)))
    else if key == "state" || key == "s" then Some(op.(srcState := TextOf(n)))
    else if key == "value" || key == "v" then Some(op.(srcValue := TextOf(n)))
    else if key == "bytes" then Some(op)
    else None
  }

  function ReadSide(dst: bool, op: E.OpSpec, pairs: seq<(string, Node)>): Option<E.OpSpec> {
    if pairs == [] then Some(op)
    else
      var last, r := pairs[|pairs|-1], ReadSide(dst, op, pairs[..|pairs|-1]);
      if r.None? then None
      else if dst then ReadDstPair(r.value, last.0, last.1)
      else ReadSrcPair(r.value, last.0, last.1)
  }

  /** A pair of an operation: a target that is no mapping is reported and skipped. */
  function ReadOpPair(op: E.OpSpec, key: string, n: Node): Option<E.OpSpec> {
    if key == "dst" || key == "d" then if n.Mapping? then ReadSide(true, op, n.pairs) else Some(op)
    else if key == "src" || key == "s" then if n.Mapping? then ReadSide(false, op, n.pairs) else Some(op)
    else None
  }

  function ReadOp(pairs: seq<(string, Node)>): Option<E.OpSpec> {
    if pairs == [] then Some(NO_OP)
    else
      var last, r := pairs[|pairs|-1], ReadOp(pairs[..|pairs|-1]);
      if r.None? then None else ReadOpPair(r.value, last.0, last.1)
  }

  /** The inner loops of op_parse_new(). */
  method SideParse(dst: bool, op: E.OpSpec, pairs: seq<(string, Node)>) returns (r: Option<E.OpSpec>)
    ensures r == ReadSide(dst, op, pairs)
  {
    r := Some(op);
    for i := 0 to |pairs|
      invariant r.Some? && r == ReadSide(dst, op, pairs[..i])
    {
      assert pairs[..i+1][..i] == pairs[..i];
      var (key, n) := pairs[i];
      if key == "field" || key == "f" {
        r := Some(if dst then r.value.(dstField := TextOf(n)) else r.value.(srcField := TextOf(n)));
      } else if key == "state" || key == "s" {
        r := Some(if dst then r.value.(dstState := TextOf(n)) else r.value.(srcState := TextOf(n)));
      } else if !dst && (key == "value" || key == "v") {
        r := Some(r.value.(srcValue := TextOf(n)));
      } else if key != "bytes" {
        ReadSideFails(dst, op, pairs, i + 1);
        return None;
      }
    }
    assert pairs[..|pairs|] == pairs;
  }

  lemma {:induction false} ReadSideFails(dst: bool, op: E.OpSpec, pairs: seq<(string, Node)>, i: nat)
    requires i <= |pairs| && ReadSide(dst, op, pairs[..i]).None?
    ensures ReadSide(dst, op, pairs).None?
  {
    if i < |pairs| {
      assert pairs[..|pairs|-1][..i] == pairs[..i];
      ReadSideFails(dst, op, pairs[..|pairs|-1], i);
    } else {
      assert pairs[..i] == pairs;
    }
  }

  /** op_parse_new() up to the call of op_new(). */
  method OpParse(pairs: seq<(string, Node)>) returns (r: Option<E.OpSpec>)
    ensures r == ReadOp(pairs)
  {
    r := Some(NO_OP);
    for i := 0 to |pairs|
      invariant r.Some? && r == ReadOp(pairs[..i])
    {
      assert pairs[..i+1][..i] == pairs[..i];
      var (key, n) := pairs[i];
      if key in ["dst", "d", "src", "s"] {
        if n.Mapping? {
          r := SideParse(key == "dst" || key == "d", r.value, n.pairs);
        }
      } else {
        r := None;
      }
      if r.None? {
        ReadOpFails(pairs, i + 1);
        return;
      }
    }
    assert pairs[..|pairs|] == pairs;
  }

  lemma {:induction false} ReadOpFails(pairs: seq<(string, Node)>, i: nat)
    requires i <= |pairs| && ReadOp(pairs[..i]).None?
    ensures ReadOp(pairs).None?
  {
    if i < |pairs| {
      assert pairs[..|pairs|-1][..i] == pairs[..i];
      ReadOpFails(pairs[..|pairs|-1], i);
    } else {
      assert pairs[..i] == pairs;
    }
  }

  function PairIf(key: string, text: Option<string>): seq<(string, Node)> {
    if text.Some? then [(key, Scalar(text.value))] else []
  }

  function DstForm(op: E.OpSpec): seq<(string, Node)> {
    PairIf("field", op.dstField) + PairIf("state", op.dstState)
  }

  function SrcForm(op: E.OpSpec, rendered: string): seq<(string, Node)> {
    PairIf("field", op.srcField)
    + if op.srcValue.Some? then [("value", Scalar(op.srcValue.value)), ("bytes", Scalar(rendered))] else PairIf("state", op.srcState)
  }

  /** op_emit() with memref_emit(); `rendered` are the octets of a literal value as value_render() shows them. */
  function OpForm(op: E.OpSpec, rendered: string): seq<(string, Node)> {
    [("dst", Mapping(DstForm(op))), ("src", Mapping(SrcForm(op, rendered)))]
  }

  lemma ReadSideStep(dst: bool, op: E.OpSpec, pairs: seq<(string, Node)>, key: string, n: Node)
    ensures ReadSide(dst, op, pairs + [(key, n)]) ==
      var r := ReadSide(dst, op, pairs);
      if r.None? then None else if dst then ReadDstPair(r.value, key, n) else ReadSrcPair(r.value, key, n)
  {
    assert (pairs + [(key, n)])[..|pairs|] == pairs;
  }

  lemma DstFormRead(op: E.OpSpec)
    ensures ReadSide(true, NO_OP, DstForm(op)) == Some(NO_OP.(dstField := op.dstField, dstState := op.dstState))
  {
    hide ReadSide;
    var f := PairIf("field", op.dstField);
    SideFieldRead(true, NO_OP, op.dstField);
    if op.dstState.Some? {
      ReadSideStep(true, NO_OP, f, "state", Scalar(op.dstState.value));
    } else {
      assert DstForm(op) == f;
    }
  }

  lemma SideFieldRead(dst: bool, start: E.OpSpec, field: Option<string>)
    requires if dst then start.dstField == None else start.srcField == None
    ensures ReadSide(dst, start, PairIf("field", field)) ==
      Some(if dst then start.(dstField := field) else start.(srcField := field))
  {
    if field.Some? {
      ReadSideStep(dst, start, [], "field", Scalar(field.value));
      assert [] + PairIf("field", field) == PairIf("field", field);
    }
  }

  lemma ValueRead(start: E.OpSpec, f: seq<(string, Node)>, value: string, rendered: string)
    requires ReadSide(false, start, f).Some?
    ensures ReadSide(false, start, f + [("value", Scalar(value)), ("bytes", Scalar(rendered))]) ==
      Some(ReadSide(false, start, f).value.(srcValue := Some(value)))
  {
    hide ReadSide;
    var v := [("value", Scalar(value))];
    ReadSideStep(false, start, f, "value", Scalar(value));
    ReadSideStep(false, start, f + v, "bytes", Scalar(rendered));
    assert f + [("value", Scalar(value)), ("bytes", Scalar(rendered))] == f + v + [("bytes", Scalar(rendered))];
  }

  lemma SrcFormRead(op: E.OpSpec, start: E.OpSpec, rendered: string)
    requires !(op.srcState.Some? && op.srcValue.Some?)
    requires start.srcField == None && start.srcState == None && start.srcValue == None
    ensures ReadSide(false, start, SrcForm(op, rendered)) == Some(start.(srcField := op.srcField, srcState := op.srcState, srcValue := op.srcValue))
  {
    hide ReadSide;
    var f := PairIf("field", op.srcField);
    SideFieldRead(false, start, op.srcField);
    if op.srcValue.Some? {
      ValueRead(start, f, op.srcValue.value, rendered);
    } else if op.srcState.Some? {
      ReadSideStep(false, start, f, "state", Scalar(op.srcState.value));
    } else {
      assert SrcForm(op, rendered) == f;
    }
  }

  /** Reading an emitted operation yields the same names. */
  lemma OpRoundTrip(op: E.OpSpec, rendered: string)
    requires E.WellFormed(op)
    ensures ReadOp(OpForm(op, rendered)) == Some(op)
  {
    DstFormRead(op);
    var dst := NO_OP.(dstField := op.dstField, dstState := op.dstState);
    SrcFormRead(op, dst, rendered);
    var form := OpForm(op, rendered);
    assert form[..1][..0] == [] && form[..1] == [("dst", Mapping(DstForm(op)))];
    assert ReadOp(form[..1]) == Some(dst);
  }

  /**
   * In the configuration it was emitted from, an operation read back can be built, joins the states it was
   * using, and resolves to the same addresses and extents.
   */
  lemma OpRebuilt(lib: E.Library, c: E.Conf, r: string, op: E.OpSpec, rendered: string)
    requires X.Sound(lib, c) && r in c.rules && op in c.rules[r].matches + c.rules[r].writes
    ensures var read := ReadOp(OpForm(op, rendered));
      && read.Some?
      && E.BuildOp(lib, c.fields, c.states, read.value) == Some(c.states)
      && E.Resolves(lib, c.fields, read.value) && E.Resolves(lib, c.fields, op)
      && E.Resolve(lib, c.fields, read.value) == E.Resolve(lib, c.fields, op)
  {
    assert E.Resolves(lib, c.fields, op) && X.Fits(c.fields, c.states, op);
    OpRoundTrip(op, rendered);
  }

  // ---------------------------------------------------------------- keys

  /** The last pair whose key is one of `keys`; None if there is none. */
  function LastOf(pairs: seq<(string, Node)>, keys: set<string>): Option<Node> {
    if pairs == [] then None
    else if pairs[|pairs|-1].0 in keys then Some(pairs[|pairs|-1].1)
    else LastOf(pairs[..|pairs|-1], keys)
  }

  /** The number in a node; None if it is no number. */
  function NumberIn(n: Node): Option<int> {
    if n.Scalar? then StrToL(n.text) else None
  }

  /**
   * Each argument of a field comes from the last pair with its own key, long or short, and from no other; without
   * such a pair it has its default.
   */
  lemma {:induction false} FieldArguments(pairs: seq<(string, Node)>)
    requires ReadField(pairs).Read?
    ensures var a := ReadField(pairs).args;
      var (name, offt, len, mask) := (LastOf(pairs, {"field", "f"}), LastOf(pairs, {"offt", "o"}), LastOf(pairs, {"len", "l"}), LastOf(pairs, {"mask", "m"}));
      && a.name == (if name.None? then Some("") else TextOf(name.value))
      && (if offt.None? then a.offt == 0 else NumberIn(offt.value) == Some(a.offt))
      && (if len.None? then a.len == 0 else NumberIn(len.value) == Some(a.len))
      && (if mask.None? then a.mask == 0 else NumberIn(mask.value) == Some(a.mask))
  {
    hide StrToL;
    if pairs == [] {
    } else {
      FieldArguments(pairs[..|pairs|-1]);
    }
  }

  /** Reading a field ends early exactly if a key of a number has no number. */
  lemma {:induction false} FieldReadsExactly(pairs: seq<(string, Node)>)
    ensures ReadField(pairs).Read? <==>
      forall i :: 0 <= i < |pairs| && pairs[i].0 in {"offt", "o", "len", "l", "mask", "m"} ==> NumberIn(pairs[i].1).Some?
  {
    hide StrToL;
    if pairs == [] {
    } else {
      FieldReadsExactly(pairs[..|pairs|-1]);
    }
  }

  predicate KeysKnown(dst: bool, pairs: seq<(string, Node)>) {
    forall i :: 0 <= i < |pairs| ==>
      pairs[i].0 in (if dst then {"field", "f", "state", "s", "bytes"} else {"field", "f", "state", "s", "value", "v", "bytes"})
  }

  /** The same for one side of an operation; each side sets its own parts and leaves the others as they are. */
  lemma {:induction false} SideArguments(dst: bool, start: E.OpSpec, pairs: seq<(string, Node)>)
    ensures ReadSide(dst, start, pairs).Some? <==> KeysKnown(dst, pairs)
    ensures ReadSide(dst, start, pairs).Some? ==>
      var op := ReadSide(dst, start, pairs).value;
      var (field, state, value) := (LastOf(pairs, {"field", "f"}), LastOf(pairs, {"state", "s"}), LastOf(pairs, {"value", "v"}));
      if dst then
        && op == start.(dstField := op.dstField, dstState := op.dstState)
        && op.dstField == (if field.None? then start.dstField else TextOf(field.value))
        && op.dstState == (if state.None? then start.dstState else TextOf(state.value))
      else
        && op == start.(srcField := op.srcField, srcState := op.srcState, srcValue := op.srcValue)
        && op.srcField == (if field.None? then start.srcField else TextOf(field.value))
        && op.srcState == (if state.None? then start.srcState else TextOf(state.value))
        && op.srcValue == (if value.None? then start.srcValue else TextOf(value.value))
  {
    if pairs == [] {
    } else {
      SideArguments(dst, start, pairs[..|pairs|-1]);
    }
  }

  predicate OfSide(dst: bool, key: string) {
    if dst then key == "dst" || key == "d" else key == "src" || key == "s"
  }

  /** All pairs given for one side of an operation, mapping after mapping. */
  function SidePairs(dst: bool, pairs: seq<(string, Node)>): seq<(string, Node)> {
    if pairs == [] then []
    else
      var (key, n) := pairs[|pairs|-1];
      SidePairs(dst, pairs[..|pairs|-1]) + if OfSide(dst, key) && n.Mapping? then n.pairs else []
  }

  function LastText(pairs: seq<(string, Node)>, keys: set<string>): Option<string> {
    if LastOf(pairs, keys).None? then None else TextOf(LastOf(pairs, keys).value)
  }

  lemma {:induction false} LastOfConcat(a: seq<(string, Node)>, b: seq<(string, Node)>, keys: set<string>)
    ensures LastOf(a + b, keys) == if LastOf(b, keys).Some? then LastOf(b, keys) else LastOf(a, keys)
  {
    if b == [] {
      assert a + b == a;
    } else {
      assert (a + b)[..|a + b|-1] == a + b[..|b|-1];
      LastOfConcat(a, b[..|b|-1], keys);
    }
  }

  lemma KeysKnownConcat(dst: bool, a: seq<(string, Node)>, b: seq<(string, Node)>)
    ensures KeysKnown(dst, a + b) <==> KeysKnown(dst, a) && KeysKnown(dst, b)
  {
    if KeysKnown(dst, a + b) {
      assert forall i :: 0 <= i < |a| ==> (a + b)[i] == a[i];
      assert forall i :: 0 <= i < |b| ==> (a + b)[|a| + i] == b[i];
    }
  }

  /** Reading one more mapping for a side after others. */
  lemma OneMoreSide(dst: bool, op: E.OpSpec, before: seq<(string, Node)>, pairs: seq<(string, Node)>)
    requires KeysKnown(dst, before)
    requires if dst then op.dstField == LastText(before, {"field", "f"}) && op.dstState == LastText(before, {"state", "s"})
             else op.srcField == LastText(before, {"field", "f"}) && op.srcState == LastText(before, {"state", "s"})
                  && op.srcValue == LastText(before, {"value", "v"})
    ensures var r, all := ReadSide(dst, op, pairs), before + pairs;
      && (r.Some? <==> KeysKnown(dst, all))
      && (r.Some? ==>
            var (field, state, value) := (LastText(all, {"field", "f"}), LastText(all, {"state", "s"}), LastText(all, {"value", "v"}));
            if dst then r.value == op.(dstField := field, dstState := state)
            else r.value == op.(srcField := field, srcState := state, srcValue := value))
  {
    hide ReadSide, LastOf, KeysKnown;
    SideArguments(dst, op, pairs);
    KeysKnownConcat(dst, before, pairs);
    LastOfConcat(before, pairs, {"field", "f"});
    LastOfConcat(before, pairs, {"state", "s"});
    LastOfConcat(before, pairs, {"value", "v"});
  }

  /** The operation that two lists of pairs give. */
  function SpecOf(dst: seq<(string, Node)>, src: seq<(string, Node)>): E.OpSpec {
    E.OpSpec(LastText(dst, {"field", "f"}), LastText(dst, {"state", "s"}),
             LastText(src, {"field", "f"}), LastText(src, {"state", "s"}), LastText(src, {"value", "v"}))
  }

  /**
   * An operation is read exactly if all keys are known, inside and out. Each of its parts is the last one given for it
   * on its own side; a target that is no mapping gives nothing.
   */
  lemma {:induction false} OpArguments(pairs: seq<(string, Node)>)
    ensures ReadOp(pairs).Some? <==>
      && (forall i :: 0 <= i < |pairs| ==> OfSide(true, pairs[i].0) || OfSide(false, pairs[i].0))
      && KeysKnown(true, SidePairs(true, pairs)) && KeysKnown(false, SidePairs(false, pairs))
    ensures ReadOp(pairs).Some? ==> ReadOp(pairs).value == SpecOf(SidePairs(true, pairs), SidePairs(false, pairs))
  {
    hide LastText, KeysKnown, ReadOpPair, OfSide;
    if pairs == [] {
      NoKeys();
    } else {
      var init, last := pairs[..|pairs|-1], pairs[|pairs|-1];
      OpArguments(init);
      assert forall i :: 0 <= i < |init| ==> init[i] == pairs[i];
      OneMorePair(SidePairs(true, init), SidePairs(false, init), last.0, last.1);
    }
  }

  lemma NoKeys()
    ensures KeysKnown(true, []) && KeysKnown(false, []) && SpecOf([], []) == NO_OP
  {
  }

  /** Reading one more pair of an operation after others. */
  lemma OneMorePair(dst: seq<(string, Node)>, src: seq<(string, Node)>, key: string, n: Node)
    ensures var r := ReadOpPair(SpecOf(dst, src), key, n);
      var dst' := dst + if OfSide(true, key) && n.Mapping? then n.pairs else [];
      var src' := src + if OfSide(false, key) && n.Mapping? then n.pairs else [];
      && (KeysKnown(true, dst') && KeysKnown(false, src') ==> KeysKnown(true, dst) && KeysKnown(false, src))
      && (KeysKnown(true, dst) && KeysKnown(false, src) ==>
            && (r.Some? <==> (OfSide(true, key) || OfSide(false, key)) && KeysKnown(true, dst') && KeysKnown(false, src'))
            && (r.Some? ==> r.value == SpecOf(dst', src')))
  {
    hide ReadSide, LastText, KeysKnown;
    var more := if n.Mapping? then n.pairs else [];
    assert dst + [] == dst && src + [] == src;
    KeysKnownConcat(true, dst, more);
    KeysKnownConcat(false, src, more);
    if KeysKnown(true, dst) && KeysKnown(false, src) {
      OneMoreSide(true, SpecOf(dst, src), dst, more);
      OneMoreSide(false, SpecOf(dst, src), src, more);
    }
  }

  /** The long form of a key, among those of a field, of a side, and of an operation. */
  function LongFieldKey(key: string): string {
    if key == "f" then "field" else if key == "o" then "offt" else if key == "l" then "len" else if key == "m" then "mask" else key
  }

  function LongSideKey(dst: bool, key: string): string {
    if key == "f" then "field" else if key == "s" then "state" else if key == "v" && !dst then "value" else key
  }

  function LongOpKey(key: string): string {
    if key == "d" then "dst" else if key == "s" then "src" else key
  }

  function LongField(pairs: seq<(string, Node)>): seq<(string, Node)> {
    seq(|pairs|, i requires 0 <= i < |pairs| => (LongFieldKey(pairs[i].0), pairs[i].1))
  }

  function LongSide(dst: bool, pairs: seq<(string, Node)>): seq<(string, Node)> {
    seq(|pairs|, i requires 0 <= i < |pairs| => (LongSideKey(dst, pairs[i].0), pairs[i].1))
  }

  /** An operation with long keys throughout. */
  function LongOp(pairs: seq<(string, Node)>): seq<(string, Node)> {
    seq(|pairs|, i requires 0 <= i < |pairs| => (LongOpKey(pairs[i].0), LongTarget(LongOpKey(pairs[i].0) == "dst", pairs[i].1)))
  }

  function LongTarget(dst: bool, n: Node): Node {
    if n.Mapping? then Mapping(LongSide(dst, n.pairs)) else n
  }

  lemma ShortFieldKey(a: FieldArgs, key: string, n: Node)
    ensures ReadFieldPair(a, LongFieldKey(key), n) == ReadFieldPair(a, key, n)
  {
    hide StrToL;
  }

  lemma ShortOpKey(op: E.OpSpec, key: string, n: Node)
    ensures ReadOpPair(op, LongOpKey(key), LongTarget(LongOpKey(key) == "dst", n)) == ReadOpPair(op, key, n)
  {
    hide ReadSide, LongSide;
    if n.Mapping? {
      ShortSideKeys(true, op, n.pairs);
      ShortSideKeys(false, op, n.pairs);
    }
  }

  /** Short and long keys read the same, in fields as in operations. */
  lemma {:induction false} ShortFieldKeys(pairs: seq<(string, Node)>)
    ensures ReadField(LongField(pairs)) == ReadField(pairs)
  {
    hide ReadFieldPair, LongFieldKey;
    if pairs == [] {
    } else {
      var last := |pairs| - 1;
      ShortFieldKeys(pairs[..last]);
      forall a { ShortFieldKey(a, pairs[last].0, pairs[last].1); }
      assert LongField(pairs)[..last] == LongField(pairs[..last]);
    }
  }

  lemma {:induction false} ShortSideKeys(dst: bool, op: E.OpSpec, pairs: seq<(string, Node)>)
    ensures ReadSide(dst, op, LongSide(dst, pairs)) == ReadSide(dst, op, pairs)
  {
    if pairs == [] {
    } else {
      var last := |pairs| - 1;
      ShortSideKeys(dst, op, pairs[..last]);
      assert LongSide(dst, pairs)[..last] == LongSide(dst, pairs[..last]);
    }
  }

  lemma {:induction false} ShortOpKeys(pairs: seq<(string, Node)>)
    ensures ReadOp(LongOp(pairs)) == ReadOp(pairs)
  {
    hide ReadOpPair, LongOpKey, LongTarget;
    if pairs == [] {
    } else {
      var last := |pairs| - 1;
      ShortOpKeys(pairs[..last]);
      assert LongOp(pairs)[..last] == LongOp(pairs[..last]);
      forall op { ShortOpKey(op, pairs[last].0, pairs[last].1); }
    }
  }
}
