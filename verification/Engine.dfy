/**
 * The engine as its user sees it: fields, rules, interfaces and processes known by name only.
 *
 * This is the reference the rest of the project is measured against. It has no addresses, no reference counts
 * and no compiled sets: what is in use is decided by looking for the name, and a packet is processed by looking
 * up process, rules, fields and states at packet time.
 */
module Engine {
  import opened Bytes
  import opened Operations
  import opened Memory
  import Checksum

  /**
   * Library code whose bodies are not part of this model: `fits` tells whether nstralloc() keeps a name
   * whole, `parse` stands for copying and parsing a literal value into a given number of octets.
   */
  datatype Library = Library(fits: string -> bool, parse: (string, nat) -> Option<seq<byte>>)
  {
    ghost predicate Sound() {
      forall s, n :: parse(s, n).Some? ==> |parse(s, n).value| == n
    }
  }

  /** An operation as written in a rule. */
  datatype OpSpec = OpSpec(dstField: Option<string>, dstState: Option<string>,
                           srcField: Option<string>, srcState: Option<string>, srcValue: Option<string>)

  datatype RuleDef = RuleDef(matches: seq<OpSpec>, writes: seq<OpSpec>)
  datatype RoutDef = RoutDef(rule: string, output: string, countMatch: nat)
  datatype StateDef = StateDef(len: nat, mask: byte, octets: seq<byte>)
  datatype Counters = Counters(pktIn: nat, pktOut: nat, checkfail: nat, sockdrop: nat)

  datatype Conf = Conf(
    fields: map<string, FieldSet>,
    states: map<string, StateDef>,
    rules: map<string, RuleDef>,
    ifaces: map<string, Counters>,
    processes: map<string, seq<RoutDef>>)

  const EMPTY := Conf(map[], map[], map[], map[], map[])

  const U32 := 0x1_0000_0000
  const U64 := 0x1_0000_0000_0000_0000

  // ---------------------------------------------------------------- fields

  /** field_new(): a zero mask means none given; the values must fit int32_t, uint16_t and uint8_t. */
  function FieldOf(offt: int, len: int, mask: int): (r: Option<FieldSet>)
    ensures r.Some? ==> ValidField(r.value)
  {
    var full := if mask == 0 then 0xff else mask;
    if -0x8000_0000 <= offt < 0x8000_0000 && 0 <= len < 0x1_0000 && 0 <= full < 0x100
    then Some(FieldSet(offt, len, full, 0))
    else None
  }

  predicate ValidField(fs: FieldSet) {
    && -0x8000_0000 <= fs.offt < 0x8000_0000
    && fs.len < 0x1_0000
    && fs.mask != 0
    && fs.flags == 0
  }

  function AddField(lib: Library, c: Conf, name: string, offt: int, len: int, mask: int): (bool, Conf) {
    var fs := FieldOf(offt, len, mask);
    if name in c.fields || !lib.fits(name) || fs.None? then (false, c)
    else (true, c.(fields := c.fields[name := fs.value]))
  }

  predicate NamesField(op: OpSpec, name: string) {
    op.dstField == Some(name) || op.srcField == Some(name)
  }

  predicate FieldInUse(rules: map<string, RuleDef>, name: string) {
    exists r :: r in rules && exists op :: op in rules[r].matches + rules[r].writes && NamesField(op, name)
  }

  function DelField(c: Conf, name: string): (bool, Conf) {
    if name !in c.fields || FieldInUse(c.rules, name) then (false, c)
    else (true, c.(fields := c.fields - {name}))
  }

  // ---------------------------------------------------------------- operations and rules

  /** The checks of op_new() that need no lookup. */
  predicate WellFormed(op: OpSpec) {
    && (op.dstField.Some? || op.srcField.Some?)
    && (op.dstField.Some? || op.dstState.Some?)
    && (op.srcField.Some? || op.srcState.Some? || op.srcValue.Some?)
    && !(op.srcState.Some? && op.srcValue.Some?)
  }

  predicate FieldsKnown(fields: map<string, FieldSet>, op: OpSpec) {
    && (op.dstField.Some? ==> op.dstField.value in fields)
    && (op.srcField.Some? ==> op.srcField.value in fields)
  }

  /** The field used on either side: the one given there, otherwise the other one. */
  function ToField(fields: map<string, FieldSet>, op: OpSpec): FieldSet
    requires WellFormed(op) && FieldsKnown(fields, op)
  {
    fields[if op.dstField.Some? then op.dstField.value else op.srcField.value]
  }

  function FromField(fields: map<string, FieldSet>, op: OpSpec): FieldSet
    requires WellFormed(op) && FieldsKnown(fields, op)
  {
    fields[if op.srcField.Some? then op.srcField.value else op.dstField.value]
  }

  function Zeros(n: nat): (s: seq<byte>)
    ensures |s| == n && forall i :: 0 <= i < n ==> s[i] == 0
  {
    seq(n, i => 0)
  }

  /** memref_state_get(): a known state must have the field's length and mask, a new one starts as zeroes. */
  function GetState(lib: Library, states: map<string, StateDef>, name: string, fs: FieldSet): Option<map<string, StateDef>> {
    if name in states then
      if states[name].len == fs.len && states[name].mask == fs.mask then Some(states) else None
    else if lib.fits(name) then Some(states[name := StateDef(fs.len, fs.mask, Zeros(fs.len))])
    else None
  }

  /** op_new(): None if it fails, otherwise the states it leaves. */
  function BuildOp(lib: Library, fields: map<string, FieldSet>, states: map<string, StateDef>, op: OpSpec): Option<map<string, StateDef>> {
    if !WellFormed(op) || !FieldsKnown(fields, op) then None
    else BuildMemrefs(lib, states, op, ToField(fields, op), FromField(fields, op))
  }

  lemma IllFormed(lib: Library, fields: map<string, FieldSet>, states: map<string, StateDef>, op: OpSpec)
    requires !WellFormed(op)
    ensures BuildOp(lib, fields, states, op) == None
  {
  }

  /** The part of op_new() that follows the field lookups. */
  function BuildMemrefs(lib: Library, states: map<string, StateDef>, op: OpSpec, to: FieldSet, from: FieldSet): Option<map<string, StateDef>> {
    var s1 := if op.dstState.Some? then GetState(lib, states, op.dstState.value, to) else Some(states);
    if s1.None? then None
    else if op.srcState.Some? then GetState(lib, s1.value, op.srcState.value, from)
    else if op.srcValue.Some? && lib.parse(op.srcValue.value, from.len).None? then None
    else s1
  }

  /** A list of operations of a rule: those that fail are left out. */
  function BuildOps(lib: Library, fields: map<string, FieldSet>, states: map<string, StateDef>, ops: seq<OpSpec>)
    : (seq<OpSpec>, map<string, StateDef>)
  {
    if ops == [] then ([], states)
    else
      var last := ops[|ops|-1];
      var (built, s1) := BuildOps(lib, fields, states, ops[..|ops|-1]);
      var s2 := BuildOp(lib, fields, s1, last);
      if s2.None? then (built, s1) else (built + [last], s2.value)
  }

  function AddRule(lib: Library, c: Conf, name: string, matches: seq<OpSpec>, writes: seq<OpSpec>): (bool, Conf) {
    if name in c.rules || !lib.fits(name) then (false, c)
    else
      var (m, s1) := BuildOps(lib, c.fields, c.states, matches);
      var (w, s2) := BuildOps(lib, c.fields, s1, writes);
      (true, c.(rules := c.rules[name := RuleDef(m, w)], states := s2))
  }

  predicate NamesState(op: OpSpec, name: string) {
    op.dstState == Some(name) || op.srcState == Some(name)
  }

  predicate StateInUse(rules: map<string, RuleDef>, name: string) {
    exists r :: r in rules && exists op :: op in rules[r].matches + rules[r].writes && NamesState(op, name)
  }

  predicate RuleInUse(processes: map<string, seq<RoutDef>>, name: string) {
    exists p :: p in processes && exists rt :: rt in processes[p] && rt.rule == name
  }

  function InUse(states: map<string, StateDef>, rules: map<string, RuleDef>): map<string, StateDef> {
    map n | n in states && StateInUse(rules, n) :: states[n]
  }

  /** Deleting a rule drops the states no other rule names. */
  function DelRule(c: Conf, name: string): (bool, Conf) {
    if name !in c.rules || RuleInUse(c.processes, name) then (false, c)
    else
      var rules := c.rules - {name};
      (true, c.(rules := rules, states := InUse(c.states, rules)))
  }

  // ---------------------------------------------------------------- interfaces and processes

  function AddIface(lib: Library, c: Conf, name: string, opens: bool): (bool, Conf) {
    if name in c.ifaces || !lib.fits(name) || !opens then (false, c)
    else (true, c.(ifaces := c.ifaces[name := Counters(0, 0, 0, 0)]))
  }

  predicate IfaceInUse(processes: map<string, seq<RoutDef>>, name: string) {
    || name in processes
    || exists p :: p in processes && exists rt :: rt in processes[p] && rt.output == name
  }

  function DelIface(c: Conf, name: string): (bool, Conf) {
    if name !in c.ifaces || IfaceInUse(c.processes, name) then (false, c)
    else (true, c.(ifaces := c.ifaces - {name}))
  }

  /** rout_new() for each pair; those that fail are left out. */
  function BuildRouts(rules: set<string>, ifaces: set<string>, pairs: seq<(string, string)>): seq<RoutDef> {
    if pairs == [] then []
    else
      var init, last := BuildRouts(rules, ifaces, pairs[..|pairs|-1]), pairs[|pairs|-1];
      if last.0 in rules && last.1 in ifaces then init + [RoutDef(last.0, last.1, 0)] else init
  }

  lemma BuildRoutsNext(rules: set<string>, ifaces: set<string>, pairs: seq<(string, string)>, i: nat)
    requires i < |pairs|
    ensures BuildRouts(rules, ifaces, pairs[..i+1]) ==
      if pairs[i].0 in rules && pairs[i].1 in ifaces then BuildRouts(rules, ifaces, pairs[..i]) + [RoutDef(pairs[i].0, pairs[i].1, 0)]
      else BuildRouts(rules, ifaces, pairs[..i])
  {
    assert pairs[..i+1][..i] == pairs[..i];
  }

  function AddProcess(c: Conf, name: string, pairs: seq<(string, string)>): (bool, Conf) {
    if name in c.processes || name !in c.ifaces then (false, c)
    else (true, c.(processes := c.processes[name := BuildRouts(c.rules.Keys, c.ifaces.Keys, pairs)]))
  }

  function DelProcess(c: Conf, name: string): (bool, Conf) {
    if name !in c.processes then (false, c)
    else (true, c.(processes := c.processes - {name}))
  }

  // ---------------------------------------------------------------- packets

  /** All names in `op` resolve. */
  predicate Resolves(lib: Library, fields: map<string, FieldSet>, op: OpSpec) {
    && WellFormed(op) && FieldsKnown(fields, op)
    && (op.srcValue.Some? ==> lib.parse(op.srcValue.value, FromField(fields, op).len).Some?)
  }

  /** The operation an OpSpec stands for, looked up by name. */
  function Resolve(lib: Library, fields: map<string, FieldSet>, op: OpSpec): Op
    requires Resolves(lib, fields, op)
  {
    Op(ToField(fields, op), if op.dstState.Some? then State(op.dstState.value) else Packet,
       FromField(fields, op),
       if op.srcState.Some? then State(op.srcState.value)
       else if op.srcValue.Some? then Literal(lib.parse(op.srcValue.value, FromField(fields, op).len).value)
       else Packet)
  }

  function ResolveAll(lib: Library, fields: map<string, FieldSet>, ops: seq<OpSpec>): (r: seq<Op>)
    requires forall op :: op in ops ==> Resolves(lib, fields, op)
    ensures |r| == |ops|
    ensures forall i :: 0 <= i < |ops| ==> r[i] == Resolve(lib, fields, ops[i])
  {
    seq(|ops|, i requires 0 <= i < |ops| => Resolve(lib, fields, ops[i]))
  }

  /** Every name used by a process resolves. */
  predicate Closed(lib: Library, c: Conf) {
    && (forall r, op :: r in c.rules && op in c.rules[r].matches + c.rules[r].writes ==> Resolves(lib, c.fields, op))
    && (forall p, rt :: p in c.processes && rt in c.processes[p] ==> rt.rule in c.rules && rt.output in c.ifaces)
  }

  lemma RulesKnown(lib: Library, c: Conf, name: string)
    requires Closed(lib, c) && name in c.processes
    ensures forall rt :: rt in c.processes[name] ==> rt.rule in c.rules && rt.output in c.ifaces
  {
  }

  /** The memory a packet is processed in. */
  function MemOf(c: Conf, pkt: seq<byte>): Mem {
    Mem(pkt, map n | n in c.states :: c.states[n].octets)
  }

  function Matches(lib: Library, c: Conf, rt: RoutDef): seq<Op>
    requires Closed(lib, c) && rt.rule in c.rules
  {
    ResolveAll(lib, c.fields, c.rules[rt.rule].matches)
  }

  function Writes(lib: Library, c: Conf, rt: RoutDef): seq<Op>
    requires Closed(lib, c) && rt.rule in c.rules
  {
    ResolveAll(lib, c.fields, c.rules[rt.rule].writes)
  }

  /** From rout `i` on: the comparisons reached are defined. */
  predicate CanSelect(lib: Library, c: Conf, routs: seq<RoutDef>, i: nat, m: Mem)
    requires Closed(lib, c) && (forall rt :: rt in routs ==> rt.rule in c.rules) && i <= |routs|
    decreases |routs| - i
  {
    i == |routs|
    || (&& CanMatchAll(Matches(lib, c, routs[i]), m)
        && (!MatchAll(Matches(lib, c, routs[i]), m) ==> CanSelect(lib, c, routs, i + 1, m)))
  }

  /** The loop of process_exec(): the first rout, from `i` on, whose rule matches. */
  function Select(lib: Library, c: Conf, routs: seq<RoutDef>, i: nat, m: Mem): (r: Option<nat>)
    requires Closed(lib, c) && (forall rt :: rt in routs ==> rt.rule in c.rules) && i <= |routs|
    requires CanSelect(lib, c, routs, i, m)
    ensures r.Some? ==> i <= r.value < |routs|
    decreases |routs| - i
  {
    if i == |routs| then None
    else if MatchAll(Matches(lib, c, routs[i]), m) then Some(i)
    else Select(lib, c, routs, i + 1, m)
  }

  /** What becomes of a packet. */
  datatype Fate =
    | NoPacket
    | Outgoing
    | Unhandled
    | Unmatched
    | WriteFailed(index: nat)
    | CheckFailed(index: nat, output: string)
    | SendFailed(index: nat, output: string)
    | Sent(index: nat, output: string)

  /** Applying rule and output of `def` is free of undefined behaviour. */
  ghost predicate CanApply(lib: Library, c: Conf, def: RoutDef, pkt: seq<byte>)
    requires Closed(lib, c) && def.rule in c.rules
  {
    var ops, m := Writes(lib, c, def), MemOf(c, pkt);
    CanExec(ops, m) && (Exec(ops, m).0 ==> Checksum.InFrame(Exec(ops, m).1.pkt))
  }

  /** So is the packet step of process `name`. */
  ghost predicate CanProcess(lib: Library, c: Conf, name: string, pkt: seq<byte>)
    requires Closed(lib, c) && name in c.processes
  {
    var routs, m := c.processes[name], MemOf(c, pkt);
    && CanSelect(lib, c, routs, 0, m)
    && var i := Select(lib, c, routs, 0, m);
       i.Some? ==> CanApply(lib, c, routs[i.value], pkt)
  }

  function CountMatch(c: Conf, name: string, i: nat): Conf
    requires name in c.processes && i < |c.processes[name]|
  {
    var routs := c.processes[name];
    c.(processes := c.processes[name := routs[i := routs[i].(countMatch := (routs[i].countMatch + 1) % U32)]])
  }

  function WithStates(c: Conf, m: Mem): Conf {
    c.(states := map n | n in c.states :: if n in m.states then c.states[n].(octets := m.states[n]) else c.states[n])
  }

  /** Counters have no bearing on names. */
  lemma CountMatchKeeps(lib: Library, c: Conf, name: string, i: nat)
    requires Closed(lib, c) && name in c.processes && i < |c.processes[name]|
    ensures Closed(lib, CountMatch(c, name, i))
    ensures var c', def := CountMatch(c, name, i), c.processes[name][i];
      && Writes(lib, c', c'.processes[name][i]) == Writes(lib, c, def)
      && forall pkt :: CanApply(lib, c, def, pkt) ==> CanApply(lib, c', c'.processes[name][i], pkt)
  {
    var c', def := CountMatch(c, name, i), c.processes[name][i];
    assert Closed(lib, c');
    assert Writes(lib, c', c'.processes[name][i]) == Writes(lib, c, def);
    forall pkt ensures MemOf(c', pkt) == MemOf(c, pkt) {
    }
  }

  /** iface_output(): checksum, then send. */
  ghost function Output(c: Conf, output: string, i: nat, pkt: seq<byte>, sends: bool): (r: (Fate, Conf, seq<byte>))
    requires output in c.ifaces && Checksum.InFrame(pkt)
    ensures |r.2| == |pkt|
  {
    var k := c.ifaces[output];
    var (code, frame) := Checksum.Checksummed(pkt);
    if code != Checksum.Ok then
      (CheckFailed(i, output), c.(ifaces := c.ifaces[output := k.(checkfail := (k.checkfail + 1) % U64)]), frame)
    else if !sends then
      (SendFailed(i, output), c.(ifaces := c.ifaces[output := k.(sockdrop := (k.sockdrop + 1) % U64)]), frame)
    else (Sent(i, output), c, frame)
  }

  /** The writes of a rule, then iface_output(), on behalf of rout `i`. */
  ghost function Apply(lib: Library, c: Conf, def: RoutDef, i: nat, pkt: seq<byte>, sends: bool): (r: (Fate, Conf, seq<byte>))
    requires Closed(lib, c) && def.rule in c.rules && def.output in c.ifaces && CanApply(lib, c, def, pkt)
    ensures |r.2| == |pkt|
  {
    var (ok, m') := Exec(Writes(lib, c, def), MemOf(c, pkt));
    var c' := WithStates(c, m');
    if ok then Output(c', def.output, i, m'.pkt, sends) else (WriteFailed(i), c', m'.pkt)
  }

  /** process_exec(): fate, configuration and final octets of the packet. */
  ghost function Process(lib: Library, c: Conf, name: string, pkt: seq<byte>, sends: bool): (r: (Fate, Conf, seq<byte>))
    requires Closed(lib, c) && name in c.processes && CanProcess(lib, c, name, pkt)
    ensures |r.2| == |pkt|
  {
    var routs := c.processes[name];
    match Select(lib, c, routs, 0, MemOf(c, pkt))
    case None => (Unmatched, c, pkt)
    case Some(i) =>
      CountMatchKeeps(lib, c, name, i);
      var c' := CountMatch(c, name, i);
      Apply(lib, c', c'.processes[name][i], i, pkt, sends)
  }

  /** iface_callback() */
  ghost function Receive(lib: Library, c: Conf, name: string, pkt: seq<byte>, outgoing: bool, sends: bool): (r: (Fate, Conf, seq<byte>))
    requires Closed(lib, c) && name in c.ifaces && CanReceive(lib, c, name, pkt, outgoing)
    ensures |r.2| == |pkt|
  {
    if pkt == [] then (NoPacket, c, pkt)
    else if outgoing then (Outgoing, CountOut(c, name), pkt)
    else if name in c.processes then Process(lib, CountIn(c, name), name, pkt, sends)
    else (Unhandled, CountIn(c, name), pkt)
  }

  /** The packet step is free of undefined behaviour. */
  ghost predicate CanReceive(lib: Library, c: Conf, name: string, pkt: seq<byte>, outgoing: bool)
    requires Closed(lib, c) && name in c.ifaces
  {
    pkt != [] && !outgoing && name in c.processes ==> CanProcess(lib, CountIn(c, name), name, pkt)
  }

  function CountOut(c: Conf, name: string): Conf
    requires name in c.ifaces
  {
    var k := c.ifaces[name];
    c.(ifaces := c.ifaces[name := k.(pktOut := (k.pktOut + 1) % U64)])
  }

  function CountIn(c: Conf, name: string): Conf
    requires name in c.ifaces
  {
    var k := c.ifaces[name];
    c.(ifaces := c.ifaces[name := k.(pktIn := (k.pktIn + 1) % U64)])
  }
}
