/**
 Whole DNS responses (sections 4.1.1 to 4.1.4 of RFC 1035): the walk over one finds exactly the records that were put
 into it, whether their names are written out or compressed.
 */
module DnsMessage {
  import opened Bytes
  import opened Dns

  /** A name written out, or labels followed by a pointer to the rest of the name. */
  datatype WireName = Plain(labels: seq<Label>) | Compressed(labels: seq<Label>, to: nat)

  ghost predicate ValidName(n: WireName) {
    WireLabels(n.labels) && (n.Compressed? ==> n.to < 0x4000)
  }

  function NameBytes(n: WireName): (e: seq<byte>)
    requires ValidName(n)
  {
    match n
    case Plain(labels) => Encoded(labels)
    case Compressed(labels, to) => Body(labels) + [192 + to / 256, to % 256]
  }

  /** A record to be sent; `other` is its class and time to live, which the walk passes over. */
  datatype Resource = Resource(name: WireName, kind: nat, other: seq<byte>, data: seq<byte>)

  ghost predicate ValidResource(r: Resource) {
    ValidName(r.name) && r.kind < 0x1_0000 && |r.other| == 6 && |r.data| < 0x1_0000
  }

  /** Two bytes, most significant first. */
  function Bytes16(v: nat): (e: seq<byte>)
    requires v < 0x1_0000
    ensures |e| == 2 && U16(e, 0) == v
  {
    [v / 256, v % 256]
  }

  /** Type, class, time to live and data length. */
  function Fixed(r: Resource): (e: seq<byte>)
    requires ValidResource(r)
    ensures |e| == 10 && U16(e, 0) == r.kind && U16(e, 8) == |r.data|
  {
    Bytes16(r.kind) + r.other + Bytes16(|r.data|)
  }

  function Size(r: Resource): nat
    requires ValidResource(r)
  {
    |NameBytes(r.name)| + 10 + |r.data|
  }

  function ResourceBytes(r: Resource): (e: seq<byte>)
    requires ValidResource(r)
    ensures |e| == Size(r)
  {
    NameBytes(r.name) + Fixed(r) + r.data
  }

  ghost predicate ValidResources(rs: seq<Resource>) {
    forall i | 0 <= i < |rs| :: ValidResource(rs[i])
  }

  function ResourcesBytes(rs: seq<Resource>): seq<byte>
    requires ValidResources(rs)
  {
    if rs == [] then [] else ResourceBytes(rs[0]) + ResourcesBytes(rs[1..])
  }

  /** The address an address record carries. */
  function AddressOf(r: Resource): seq<nat> {
    if r.kind == 1 && |r.data| == 4 then [(U16(r.data, 0) * 256 + r.data[2]) * 256 + r.data[3]] else []
  }

  /** Four bytes of data of type 1 are an address, most significant first; no other record is one. */
  lemma AddressBytes(r: Resource)
    ensures r.kind == 1 && |r.data| == 4 ==>
      var a: int, b: int, c: int, d: int := r.data[0], r.data[1], r.data[2], r.data[3];
      AddressOf(r) == [0x100_0000 * a + 0x1_0000 * b + 0x100 * c + d]
    ensures r.kind != 1 || |r.data| != 4 ==> AddressOf(r) == []
  {
  }

  /** The addresses among the resources, in order. */
  function AddressesOf(rs: seq<Resource>): seq<nat> {
    if rs == [] then [] else AddressOf(rs[0]) + AddressesOf(rs[1..])
  }

  // ---- bytes in a datagram ----

  lemma AtConcat(b: seq<byte>, pos: nat, x: seq<byte>, y: seq<byte>)
    requires At(b, pos, x + y)
    ensures At(b, pos, x) && At(b, pos + |x|, y)
  {
    var whole := b[pos..pos + |x + y|];
    assert whole == x + y;
    assert b[pos..pos + |x|] == whole[..|x|] == x;
    assert b[pos + |x|..pos + |x| + |y|] == whole[|x|..] == y;
  }

  lemma AtParts(b: seq<byte>, pos: nat, whole: seq<byte>, x: seq<byte>, y: seq<byte>)
    requires At(b, pos, whole) && whole == x + y
    ensures At(b, pos, x) && At(b, pos + |x|, y)
  {
    AtConcat(b, pos, x, y);
  }

  /** One byte of what is there. */
  lemma AtByte(b: seq<byte>, pos: nat, x: seq<byte>, i: nat)
    requires At(b, pos, x) && i < |x|
    ensures b[pos + i] == x[i]
  {
    assert b[pos + i] == b[pos..pos + |x|][i];
  }

  lemma AtU16(b: seq<byte>, pos: nat, x: seq<byte>, i: nat)
    requires At(b, pos, x) && i + 2 <= |x|
    ensures U16(b, pos + i) == U16(x, i)
  {
    AtByte(b, pos, x, i);
    AtByte(b, pos, x, i + 1);
  }

  // ---- names ----

  /** Labels in front of anything are skipped one by one. */
  lemma {:induction false} BodySkipped(b: seq<byte>, pos: nat, labels: seq<Label>, e: seq<byte>)
    requires WireLabels(labels) && At(b, pos, Body(labels) + e)
    ensures At(b, pos + |Body(labels)|, e) && Skipped(b, pos) == Skipped(b, pos + |Body(labels)|)
    decreases |labels|
  {
    if labels == [] {
      assert Body(labels) + e == e;
    } else {
      var l, rest := labels[0], labels[1..];
      BodyPeeled(b, pos, labels, e);
      BodySkipped(b, pos + 1 + |l|, rest, e);
      SkipLabel(b, pos, l);
    }
  }

  /** The first label taken off. */
  lemma BodyPeeled(b: seq<byte>, pos: nat, labels: seq<Label>, e: seq<byte>)
    requires WireLabels(labels) && labels != [] && At(b, pos, Body(labels) + e)
    ensures var l, rest := labels[0], labels[1..];
      && WireLabel(l) && WireLabels(rest) && pos < |b| && b[pos] == |l|
      && At(b, pos + 1 + |l|, Body(rest) + e) && |Body(labels)| == 1 + |l| + |Body(rest)|
  {
    var l, rest := labels[0], labels[1..];
    BodyFront(labels);
    LabelFirst(l, Body(rest), e);
    AtSplit(b, pos, l, Body(rest) + e);
  }

  lemma LabelFirst(l: Label, body: seq<byte>, e: seq<byte>)
    requires |l| < 256
    ensures [|l|] + l + body + e == [|l|] + l + (body + e)
  {
  }

  lemma SkipLabel(b: seq<byte>, pos: nat, l: Label)
    requires WireLabel(l) && pos < |b| && b[pos] == |l|
    ensures Skipped(b, pos) == Skipped(b, pos + 1 + |l|)
  {
  }

  /** A compressed name is skipped with its pointer. */
  lemma PointerSkipped(b: seq<byte>, pos: nat, labels: seq<Label>, to: nat)
    requires WireLabels(labels) && to < 0x4000 && At(b, pos, NameBytes(Compressed(labels, to)))
    ensures Skipped(b, pos) == pos + |NameBytes(Compressed(labels, to))|
  {
    var e := [192 + to / 256, to % 256];
    BodySkipped(b, pos, labels, e);
    AtByte(b, pos + |Body(labels)|, e, 0);
  }

  lemma NameSkipped(b: seq<byte>, pos: nat, n: WireName)
    requires ValidName(n) && At(b, pos, NameBytes(n))
    ensures Skipped(b, pos) == pos + |NameBytes(n)|
  {
    match n
    case Plain(labels) => EncodedRoundTrip(b, pos, labels);
    case Compressed(labels, to) => PointerSkipped(b, pos, labels, to);
  }

  // ---- records ----

  /** Where the walk finds the record of a resource put at `pos`. */
  function RecordOf(pos: nat, r: Resource): Record
    requires ValidResource(r)
  {
    Record(pos + |NameBytes(r.name)| + 10, r.kind, |r.data|)
  }

  lemma ResourceFound(b: seq<byte>, pos: nat, r: Resource)
    requires ValidResource(r) && At(b, pos, ResourceBytes(r))
    ensures var p := pos + |NameBytes(r.name)|;
      && Skipped(b, pos) == p && pos < |b| && p + 10 <= |b| && RecordAt(b, p) == RecordOf(pos, r)
      && At(b, p + 10, r.data) && p + 10 + |r.data| == pos + Size(r)
  {
    var name, fixed := NameBytes(r.name), Fixed(r);
    AtConcat(b, pos, name + fixed, r.data);
    AtConcat(b, pos, name, fixed);
    NameSkipped(b, pos, r.name);
    AtU16(b, pos + |name|, fixed, 0);
    AtU16(b, pos + |name|, fixed, 8);
  }

  /** The record of an address resource gives that address. */
  lemma AddressFound(b: seq<byte>, pos: nat, r: Resource)
    requires ValidResource(r) && At(b, pos, ResourceBytes(r))
    ensures AddressOf(r) == if IsAddress(b, RecordOf(pos, r)) then [Address(b, RecordOf(pos, r))] else []
  {
    ResourceFound(b, pos, r);
    var at := RecordOf(pos, r).at;
    if r.kind == 1 && |r.data| == 4 {
      AtU16(b, at, r.data, 0);
      AtByte(b, at, r.data, 2);
      AtByte(b, at, r.data, 3);
    }
  }

  function RecordsOf(pos: nat, rs: seq<Resource>): seq<Record>
    requires ValidResources(rs)
    decreases |rs|
  {
    if rs == [] then [] else [RecordOf(pos, rs[0])] + RecordsOf(pos + Size(rs[0]), rs[1..])
  }

  lemma ResourcesFront(rs: seq<Resource>)
    requires ValidResources(rs) && rs != []
    ensures ValidResource(rs[0]) && ValidResources(rs[1..])
    ensures ResourcesBytes(rs) == ResourceBytes(rs[0]) + ResourcesBytes(rs[1..])
  {
  }

  /** The first resource taken off. */
  lemma Peel(b: seq<byte>, pos: nat, rs: seq<Resource>) returns (r: Resource, rest: seq<Resource>, next: nat)
    requires ValidResources(rs) && At(b, pos, ResourcesBytes(rs)) && rs != []
    ensures r == rs[0] && rest == rs[1..] && next == pos + Size(r)
    ensures ValidResource(r) && ValidResources(rest) && At(b, pos, ResourceBytes(r))
    ensures At(b, next, ResourcesBytes(rest))
  {
    ResourcesFront(rs);
    r, rest := rs[0], rs[1..];
    next := pos + |ResourceBytes(r)|;
    AtParts(b, pos, ResourcesBytes(rs), ResourceBytes(r), ResourcesBytes(rest));
  }

  lemma FirstRecord(b: seq<byte>, pos: nat, r: Resource, n: nat, next: nat)
    requires ValidResource(r) && At(b, pos, ResourceBytes(r)) && n > 0 && next == pos + Size(r)
    ensures Records(b, pos, n) == [RecordOf(pos, r)] + Records(b, next, n - 1)
  {
    ResourceFound(b, pos, r);
    RecordsStep(b, pos, n, RecordOf(pos, r));
  }

  /** The walk visits exactly the resources that were put there, in order. */
  lemma {:induction false} RecordsExact(b: seq<byte>, pos: nat, rs: seq<Resource>, n: nat)
    requires ValidResources(rs) && At(b, pos, ResourcesBytes(rs)) && n == |rs|
    ensures Records(b, pos, n) == RecordsOf(pos, rs)
    decreases n
  {
    if n > 0 {
      var r, rest, next := Peel(b, pos, rs);
      RecordsExact(b, next, rest, n - 1);
      FirstRecord(b, pos, r, n, next);
      RecordsOfStep(pos, rs, r, rest, next);
    }
  }

  lemma RecordsOfStep(pos: nat, rs: seq<Resource>, r: Resource, rest: seq<Resource>, next: nat)
    requires ValidResources(rs) && rs == [r] + rest && ValidResource(r) && ValidResources(rest)
    requires next == pos + |ResourceBytes(r)|
    ensures RecordsOf(pos, rs) == [RecordOf(pos, r)] + RecordsOf(next, rest)
  {
    assert rs[0] == r && rs[1..] == rest;
  }

  lemma {:induction false} AddressesFront(b: seq<byte>, r: Record, rs: seq<Record>)
    ensures Addresses(b, [r] + rs) == (if IsAddress(b, r) then [Address(b, r)] else []) + Addresses(b, rs)
  {
    if rs == [] {
      assert [r] + rs == [] + [r];
      RecordStep(b, [], r);
    } else {
      var n := |rs| - 1;
      AddressesFront(b, r, rs[..n]);
      assert [r] + rs == ([r] + rs[..n]) + [rs[n]] && rs == rs[..n] + [rs[n]];
      RecordStep(b, [r] + rs[..n], rs[n]);
    }
  }

  /** And the addresses it collects are exactly theirs. */
  lemma {:induction false} AddressesExact(b: seq<byte>, pos: nat, rs: seq<Resource>)
    requires ValidResources(rs) && At(b, pos, ResourcesBytes(rs))
    ensures Addresses(b, RecordsOf(pos, rs)) == AddressesOf(rs)
    decreases |rs|
  {
    if rs != [] {
      var r, rest, next := Peel(b, pos, rs);
      AddressFound(b, pos, r);
      AddressesExact(b, next, rest);
      AddressesFront(b, RecordOf(pos, r), RecordsOf(next, rest));
      RecordsOfStep(pos, rs, r, rest, next);
    }
  }

  // ---- responses ----

  /** A response: header, the question's name and its type and class, the answers, and whatever follows. */
  function Response(header: seq<byte>, question: seq<Label>, kind: seq<byte>, rs: seq<Resource>, tail: seq<byte>)
    : seq<byte>
    requires WireLabels(question) && ValidResources(rs)
  {
    header + (Encoded(question) + (kind + (ResourcesBytes(rs) + tail)))
  }

  /** Where the parts of a response are. */
  lemma ResponseParts(header: seq<byte>, e: seq<byte>, kind: seq<byte>, answers: seq<byte>, tail: seq<byte>,
                      b: seq<byte>)
    requires |header| == HEADER && |kind| == 4 && b == header + (e + (kind + (answers + tail)))
    ensures At(b, 0, header) && At(b, HEADER, e) && At(b, HEADER + |e| + 4, answers)
  {
    assert At(b, 0, header + (e + (kind + (answers + tail))));
    AtConcat(b, 0, header, e + (kind + (answers + tail)));
    AtConcat(b, HEADER, e, kind + (answers + tail));
    AtConcat(b, HEADER + |e|, kind, answers + tail);
    AtConcat(b, HEADER + |e| + 4, answers, tail);
  }

  /** For every response that announces its answers, the addresses offered are exactly those of its address records. */
  lemma ResponseRead(header: seq<byte>, question: seq<Label>, kind: seq<byte>, rs: seq<Resource>, tail: seq<byte>,
                     b: seq<byte>)
    requires WireLabels(question) && ValidResources(rs) && |header| == 12 && |kind| == 4 && U16(header, 6) == |rs|
    requires b == Response(header, question, kind, rs, tail)
    ensures |b| > HEADER && Offered(b) == AddressesOf(rs)
  {
    var start := HEADER + |Encoded(question)| + 4;
    ResponseParts(header, Encoded(question), kind, ResourcesBytes(rs), tail, b);
    AtU16(b, 0, header, 6);
    EncodedRoundTrip(b, HEADER, question);
    RecordsExact(b, start, rs, |rs|);
    AddressesExact(b, start, rs);
  }
}
