/** DNS names on the wire (sections 3.1 and 4.1.4 of RFC 1035) and the walk over a response's answers. */
module Dns {
  import opened Common
  import opened Bytes

  const DOT: byte := 46

  type Label = seq<byte>

  // ---- names ----

  /** Bytes up to the first dot or the end. */
  function FirstLen(name: seq<byte>): (l: nat)
    ensures l <= |name| && (l < |name| ==> name[l] == DOT) && forall i | 0 <= i < l :: name[i] != DOT
  {
    if name == [] || name[0] == DOT then 0 else 1 + FirstLen(name[1..])
  }

  /** The labels of a dotted name; a dot at the very end adds none. */
  function Labels(name: seq<byte>): seq<Label>
    decreases |name|
  {
    if name == [] then []
    else
      var l := FirstLen(name);
      if l == |name| then [name] else [name[..l]] + Labels(name[l + 1..])
  }

  /** The labels on the wire, each behind its length. */
  function Body(labels: seq<Label>): seq<byte>
    requires forall i | 0 <= i < |labels| :: |labels[i]| < 256
  {
    if labels == [] then [] else Body(labels[..|labels| - 1]) + [|labels[|labels| - 1]|] + labels[|labels| - 1]
  }

  predicate WireLabel(l: Label) {
    1 <= |l| <= 63
  }

  ghost predicate WireLabels(labels: seq<Label>) {
    forall i | 0 <= i < |labels| :: WireLabel(labels[i])
  }

  /** A whole name on the wire ends with the empty label. */
  function Encoded(labels: seq<Label>): seq<byte>
    requires WireLabels(labels)
  {
    Body(labels) + [0]
  }

  /** A name the encoder accepts: labels of 1 to 63 bytes, at least one, and room for them with the terminator. */
  ghost predicate Accepted(name: seq<byte>, maxlen: int) {
    Labels(name) != [] && WireLabels(Labels(name)) && |Encoded(Labels(name))| <= maxlen
  }

  /** The dotted name of some labels. */
  function Dotted(labels: seq<Label>): seq<byte> {
    if labels == [] then [] else if |labels| == 1 then labels[0] else labels[0] + [46] + Dotted(labels[1..])
  }

  lemma {:induction false} FirstLenIs(l: Label, rest: seq<byte>)
    requires 46 !in l && (rest == [] || rest[0] == 46)
    ensures FirstLen(l + rest) == |l|
  {
    if l == [] {
      assert l + rest == rest;
    } else {
      assert (l + rest)[1..] == l[1..] + rest && (l + rest)[0] == l[0];
      FirstLenIs(l[1..], rest);
    }
  }

  /** Labels joined by dots are the labels of the name, if none holds a dot and the last is not empty. */
  lemma {:induction false} DottedLabels(labels: seq<Label>)
    requires labels != [] && labels[|labels| - 1] != [] && forall i | 0 <= i < |labels| :: 46 !in labels[i]
    ensures Labels(Dotted(labels)) == labels
  {
    var l, rest := labels[0], Dotted(labels[1..]);
    if |labels| == 1 {
      FirstLenIs(l, []);
      assert l + [] == l;
    } else {
      var name := Dotted(labels);
      assert name == l + ([46] + rest) && labels == [l] + labels[1..];
      FirstLenIs(l, [46] + rest);
      assert name[..|l|] == l && name[|l| + 1..] == rest;
      DottedLabels(labels[1..]);
    }
  }

  /** Two labels on the wire: each behind its length, then a zero. */
  lemma TwoLabels(a: Label, b: Label)
    requires WireLabel(a) && WireLabel(b)
    ensures Encoded([a, b]) == [|a|] + a + [|b|] + b + [0]
  {
    assert Body([]) == [] && [] + [a] == [a] && [a] + [b] == [a, b];
    BodyStep([], a);
    BodyStep([a], b);
  }

  lemma BodyStep(labels: seq<Label>, l: Label)
    requires WireLabels(labels) && |l| < 256
    ensures Body(labels + [l]) == Body(labels) + [|l|] + l
  {
    assert (labels + [l])[..|labels|] == labels;
  }

  /** Longer lists of labels have longer bodies. */
  lemma {:induction false} BodyGrows(a: seq<Label>, b: seq<Label>)
    requires WireLabels(a + b)
    ensures WireLabels(a) && |Body(a + b)| >= |Body(a)| + |b|
  {
    assert forall i | 0 <= i < |a| :: a[i] == (a + b)[i];
    if b == [] {
      assert a + b == a;
    } else {
      var n := |b| - 1;
      assert (a + b)[..|a + b| - 1] == a + b[..n];
      BodyGrows(a, b[..n]);
    }
  }

  // ---- decoding and skipping ----

  /** The labels from `pos` on, if there is a whole name without compression there. */
  function Decoded(b: seq<byte>, pos: nat): Option<seq<Label>>
    decreases |b| - pos
  {
    if pos >= |b| then None
    else if b[pos] == 0 then Some([])
    else if b[pos] > 63 || pos + 1 + b[pos] > |b| then None
    else match Decoded(b, pos + 1 + b[pos])
      case None => None
      case Some(rest) => Some([b[pos + 1..pos + 1 + b[pos]]] + rest)
  }

  /** Where the response walk stands after skipping a name. */
  function Skipped(b: seq<byte>, pos: nat): (end: nat)
    ensures end >= pos
    decreases |b| - pos
  {
    if pos >= |b| then pos
    else if b[pos] == 0 then pos + 1
    else if b[pos] >= 192 then pos + 2
    else Skipped(b, pos + 1 + b[pos])
  }

  /** How any byte is skipped: 0 ends the name, 192 and more end it with one byte more, others are lengths. */
  lemma SkippedByte(b: seq<byte>, pos: nat)
    requires pos < |b|
    ensures b[pos] == 0 ==> Skipped(b, pos) == pos + 1
    ensures b[pos] > 191 ==> Skipped(b, pos) == pos + 2
    ensures 1 <= b[pos] <= 191 ==> Skipped(b, pos) == Skipped(b, pos + 1 + b[pos])
  {
  }

  /** The bytes of `e` are in `b` at `pos`. */
  ghost predicate At(b: seq<byte>, pos: nat, e: seq<byte>) {
    pos + |e| <= |b| && b[pos..pos + |e|] == e
  }

  lemma {:induction false} BodyFront(labels: seq<Label>)
    requires WireLabels(labels) && labels != []
    ensures WireLabels(labels[1..]) && Body(labels) == [|labels[0]|] + labels[0] + Body(labels[1..])
  {
    var n := |labels| - 1;
    if n > 0 {
      BodyFront(labels[..n]);
      assert labels[..n][1..] == labels[1..][..n - 1] && labels[1..][n - 1] == labels[n];
    }
  }

  lemma AtSplit(b: seq<byte>, pos: nat, l: Label, tail: seq<byte>)
    requires |l| < 256 && At(b, pos, [|l|] + l + tail)
    ensures pos < |b| && b[pos] == |l| && pos + 1 + |l| <= |b| && b[pos + 1..pos + 1 + |l|] == l
    ensures At(b, pos + 1 + |l|, tail)
  {
    var e := [|l|] + l + tail;
    assert forall i | 0 <= i < |e| :: b[pos + i] == e[i];
    assert forall i | 0 <= i < |l| :: e[1 + i] == l[i];
    assert forall i | 0 <= i < |tail| :: e[1 + |l| + i] == tail[i];
  }

  lemma LabelStep(b: seq<byte>, pos: nat, l: Label, rest: seq<Label>)
    requires WireLabel(l) && pos + 1 + |l| <= |b| && b[pos] == |l| && b[pos + 1..pos + 1 + |l|] == l
    requires Decoded(b, pos + 1 + |l|) == Some(rest)
    ensures Decoded(b, pos) == Some([l] + rest) && Skipped(b, pos) == Skipped(b, pos + 1 + |l|)
  {
  }

  /** Encoding, wherever it is put, decodes to the same labels and is skipped exactly. */
  lemma {:induction false} EncodedRoundTrip(b: seq<byte>, pos: nat, labels: seq<Label>)
    requires WireLabels(labels) && At(b, pos, Encoded(labels))
    ensures Decoded(b, pos) == Some(labels) && Skipped(b, pos) == pos + |Encoded(labels)|
    decreases |labels|
  {
    if labels == [] {
      assert b[pos..pos + 1][0] == b[pos];
    } else {
      BodyFront(labels);
      var l, rest := labels[0], labels[1..];
      Regroup(l, Body(rest));
      AtSplit(b, pos, l, Encoded(rest));
      EncodedRoundTrip(b, pos + 1 + |l|, rest);
      LabelStep(b, pos, l, rest);
      assert [l] + rest == labels;
    }
  }

  /** And only an encoding decodes: what is there is the encoding of the labels. */
  lemma {:induction false} DecodedIsEncoded(b: seq<byte>, pos: nat, labels: seq<Label>)
    requires Decoded(b, pos) == Some(labels)
    ensures WireLabels(labels) && At(b, pos, Encoded(labels))
    decreases |labels|
  {
    if labels == [] {
      assert b[pos..pos + 1] == [0];
    } else {
      var l, rest := labels[0], labels[1..];
      assert labels == [l] + rest && WireLabel(l) && l == b[pos + 1..pos + 1 + b[pos]];
      DecodedIsEncoded(b, pos + 1 + |l|, rest);
      BodyFront(labels);
      Regroup(l, Body(rest));
      AtJoin(b, pos, l, Encoded(rest));
    }
  }

  lemma AtJoin(b: seq<byte>, pos: nat, l: Label, tail: seq<byte>)
    requires |l| < 256 && pos + 1 + |l| <= |b| && b[pos] == |l| && b[pos + 1..pos + 1 + |l|] == l
    requires At(b, pos + 1 + |l|, tail)
    ensures At(b, pos, [|l|] + l + tail)
  {
    var k := pos + 1 + |l|;
    assert b[pos..k + |tail|] == [b[pos]] + b[pos + 1..k] + b[k..k + |tail|];
  }

  lemma Regroup(l: Label, body: seq<byte>)
    requires |l| < 256
    ensures [|l|] + l + body + [0] == [|l|] + l + (body + [0])
  {
  }

  // ---- the encoder ----

  /** One label copied behind its length. */
  method PutLabel(out: array<byte>, len: nat, l: Label)
    requires |l| < 256 && len + |l| + 1 <= out.Length
    modifies out
    ensures out[..len + |l| + 1] == old(out[..len]) + [|l|] + l
  {
    out[len] := |l|;
    for i := 0 to |l|
      invariant out[..len + 1 + i] == old(out[..len]) + [|l|] + l[..i]
    {
      out[len + 1 + i] := l[i];
    }
    assert l[..|l|] == l;
  }

  /** The length of the label at the front of a name. */
  method Scan(name: seq<byte>, at: nat) returns (l: nat)
    requires at <= |name|
    ensures l == FirstLen(name[at..])
  {
    l := 0;
    while at + l < |name| && name[at + l] != DOT
      invariant at + l <= |name| && FirstLen(name[at..]) == l + FirstLen(name[at + l..])
    {
      assert name[at + l..][1..] == name[at + l + 1..];
      l := l + 1;
    }
  }

  /** The labels of a name: those before `at`, the one at `at`, and those behind its dot. */
  lemma NextLabel(name: seq<byte>, done: seq<Label>, at: nat, l: nat)
    requires at < |name| && Labels(name) == done + Labels(name[at..]) && l == FirstLen(name[at..])
    ensures Labels(name) == done + [name[at..at + l]] + Labels(if at + l == |name| then [] else name[at + l + 1..])
  {
    var rest, x := name[at..], name[at..at + l];
    assert rest[..l] == x;
    if at + l == |name| {
      assert rest == x && Labels(rest) == [x] + Labels([]);
      LabelsAssoc(done, x, Labels([]));
    } else {
      assert rest[l + 1..] == name[at + l + 1..];
      LabelsAssoc(done, x, Labels(name[at + l + 1..]));
    }
  }

  lemma LabelsAssoc(a: seq<Label>, x: Label, c: seq<Label>)
    ensures a + ([x] + c) == a + [x] + c
  {
  }

  /** A bad label, or one too many, spoils the whole name. */
  lemma NotAccepted(name: seq<byte>, maxlen: int, done: seq<Label>, x: Label, rest: seq<Label>)
    requires Labels(name) == done + [x] + rest && WireLabels(done)
    requires (!WireLabel(x) || |Body(done)| + |x| + 1 >= maxlen)
    ensures !Accepted(name, maxlen)
  {
    assert Labels(name)[|done|] == x;
    if WireLabels(Labels(name)) {
      BodyStep(done, x);
      BodyGrows(done + [x], rest);
    }
  }

  /** The encoder before position `at`: the labels so far are in the buffer's bytes `b`. */
  ghost predicate Encoding(name: seq<byte>, maxlen: int, at: nat, done: seq<Label>, b: seq<byte>) {
    && at <= |name| && Labels(name) == done + Labels(name[at..]) && WireLabels(done)
    && b == Body(done) && (done == [] <==> b == []) && (b != [] ==> |b| < maxlen)
  }

  lemma EncodingStep(name: seq<byte>, maxlen: int, at: nat, done: seq<Label>, b: seq<byte>, l: nat)
    requires Encoding(name, maxlen, at, done, b) && at < |name| && l == FirstLen(name[at..])
    ensures if l <= 0 || l > 63 || |b| + l + 1 >= maxlen then !Accepted(name, maxlen)
            else
              var next := if at + l == |name| then |name| else at + l + 1;
              Encoding(name, maxlen, next, done + [name[at..at + l]], b + [l] + name[at..at + l])
  {
    var x := name[at..at + l];
    var rest := if at + l == |name| then [] else name[at + l + 1..];
    NextLabel(name, done, at, l);
    if l <= 0 || l > 63 || |b| + l + 1 >= maxlen {
      NotAccepted(name, maxlen, done, x, Labels(rest));
    } else {
      BodyStep(done, x);
      assert rest == name[if at + l == |name| then |name| else at + l + 1..];
    }
  }

  lemma EncodingDone(name: seq<byte>, maxlen: int, done: seq<Label>, b: seq<byte>)
    requires Encoding(name, maxlen, |name|, done, b)
    ensures Accepted(name, maxlen) <==> b != []
    ensures b != [] ==> WireLabels(Labels(name)) && b + [0] == Encoded(Labels(name))
  {
    assert name[|name|..] == [] && done + [] == done;
  }

  /** The loop over the labels. */
  method PutLabels(out: array<byte>, maxlen: int, name: seq<byte>) returns (ok: bool, len: nat, ghost done: seq<Label>)
    requires maxlen <= out.Length
    modifies out
    ensures !ok ==> !Accepted(name, maxlen)
    ensures ok ==> len <= out.Length && Encoding(name, maxlen, |name|, done, out[..len])
  {
    var at: nat := 0;
    ok, len, done := true, 0, [];
    assert name[0..] == name;
    while ok && at < |name|
      invariant ok ==> len <= out.Length && Encoding(name, maxlen, at, done, out[..len])
      invariant !ok ==> !Accepted(name, maxlen)
      invariant ok ==> at <= |name|
      decreases ok, |name| - at
    {
      var l := Scan(name, at);
      EncodingStep(name, maxlen, at, done, out[..len], l);
      ok := !(l <= 0 || l > 63 || len + l + 1 >= maxlen);
      if ok {
        PutLabel(out, len, name[at..at + l]);
        done := done + [name[at..at + l]];
        len := len + l + 1;
        at := if at + l == |name| then |name| else at + l + 1;
      }
    }
  }

  /** dns_encode_name: accepts exactly the names it can encode, and encodes them; -1 otherwise. */
  method EncodeName(out: array<byte>, maxlen: int, name: seq<byte>) returns (n: int)
    requires maxlen <= out.Length
    modifies out
    ensures n == -1 <==> !Accepted(name, maxlen)
    ensures n != -1 ==> 0 < n <= maxlen && WireLabels(Labels(name)) && out[..n] == Encoded(Labels(name))
  {
    var ok, len;
    ghost var done;
    ok, len, done := PutLabels(out, maxlen, name);
    if !ok {
      return -1;
    }
    EncodingDone(name, maxlen, done, out[..len]);
    if len == 0 {
      return -1;
    }
    out[len] := 0;
    n := len + 1;
  }

  // ---- the response ----

  const HEADER := 12

  /** Two bytes, most significant first. */
  function U16(b: seq<byte>, at: nat): nat
    requires at + 2 <= |b|
  {
    (b[at] as nat) * 256 + b[at + 1]
  }

  /** A resource record: where its data is, its type and its data length. */
  datatype Record = Record(at: nat, kind: nat, len: nat)

  /** The records the walk visits from `pos`, with `n` answers announced. */
  function Records(b: seq<byte>, pos: nat, n: nat): seq<Record>
    decreases n
  {
    if n == 0 || pos >= |b| || Skipped(b, pos) + 10 > |b| then []
    else
      var p := Skipped(b, pos);
      [Record(p + 10, U16(b, p), U16(b, p + 8))] + Records(b, p + 10 + U16(b, p + 8), n - 1)
  }

  /** An address record that is wholly in the datagram. */
  predicate IsAddress(b: seq<byte>, r: Record) {
    r.kind == 1 && r.len == 4 && r.at + 4 <= |b|
  }

  function Address(b: seq<byte>, r: Record): nat
    requires IsAddress(b, r)
  {
    (U16(b, r.at) * 256 + b[r.at + 2]) * 256 + b[r.at + 3]
  }

  /** The addresses among some records, in order. */
  function Addresses(b: seq<byte>, rs: seq<Record>): seq<nat> {
    if rs == [] then []
    else
      var r := rs[|rs| - 1];
      Addresses(b, rs[..|rs| - 1]) + if IsAddress(b, r) then [Address(b, r)] else []
  }

  /** Where the answers start: behind the question's name, type and class. */
  function AnswerStart(b: seq<byte>): nat {
    Skipped(b, HEADER) + 4
  }

  /** The addresses a response offers. */
  function Offered(b: seq<byte>): seq<nat>
    requires |b| > HEADER
  {
    Addresses(b, Records(b, AnswerStart(b), U16(b, 6)))
  }

  const CACHE_ENTRIES := 8

  datatype Entry = Entry(name: seq<byte>, ip: nat)

  /** The name as far as a cache entry holds it. */
  function CacheName(name: seq<byte>): seq<byte> {
    if |name| < 63 then name else name[..63]
  }

  /** The cache after the addresses `ips` were walked for `name`: one entry each, while there is room. */
  function Cached(cache: seq<Entry>, name: seq<byte>, ips: seq<nat>): seq<Entry> {
    if ips == [] then cache
    else
      var c := Cached(cache, name, ips[..|ips| - 1]);
      if |c| < CACHE_ENTRIES then c + [Entry(CacheName(name), ips[|ips| - 1])] else c
  }

  /** The first entry of a name. */
  function Lookup(cache: seq<Entry>, name: seq<byte>): Option<nat> {
    if cache == [] then None else if cache[0].name == name then Some(cache[0].ip) else Lookup(cache[1..], name)
  }

  /** The name-skipping loop. */
  method Skip(b: seq<byte>, start: nat) returns (pos: nat)
    ensures pos == Skipped(b, start)
  {
    pos := start;
    while pos < |b|
      invariant Skipped(b, pos) == Skipped(b, start)
      decreases |b| - pos
    {
      var l := b[pos];
      pos := pos + 1;
      if l == 0 {
        break;
      }
      if l >= 192 {
        pos := pos + 1;
        break;
      }
      pos := pos + l;
    }
  }

  lemma RecordStep(b: seq<byte>, seen: seq<Record>, r: Record)
    ensures Addresses(b, seen + [r]) == Addresses(b, seen) + if IsAddress(b, r) then [Address(b, r)] else []
  {
    assert (seen + [r])[..|seen|] == seen;
  }

  lemma CacheStep(cache: seq<Entry>, name: seq<byte>, ips: seq<nat>, ip: nat)
    ensures Cached(cache, name, ips + [ip]) ==
      var c := Cached(cache, name, ips); if |c| < CACHE_ENTRIES then c + [Entry(CacheName(name), ip)] else c
  {
    assert (ips + [ip])[..|ips|] == ips;
  }

  /** The last of some addresses. */
  function Last(ips: seq<nat>): Option<nat> {
    if ips == [] then None else Some(ips[|ips| - 1])
  }

  /**
   * The walk after the records `seen`: the last address so far, every address cached, the rest of the records ahead.
   */
  ghost predicate Walking(b: seq<byte>, cache: seq<Entry>, name: seq<byte>, all: seq<Record>, seen: seq<Record>,
                          pos: nat, n: nat, ip: Option<nat>, cache': seq<Entry>) {
    all == seen + Records(b, pos, n) && ip == Last(Addresses(b, seen))
      && cache' == Cached(cache, name, Addresses(b, seen))
  }

  function RecordAt(b: seq<byte>, p: nat): Record
    requires p + 10 <= |b|
  {
    Record(p + 10, U16(b, p), U16(b, p + 8))
  }

  /** The answer and the cache after one more record. */
  function Answered(b: seq<byte>, r: Record, ip: Option<nat>): Option<nat> {
    if IsAddress(b, r) then Some(Address(b, r)) else ip
  }

  function Extended(cache: seq<Entry>, name: seq<byte>, b: seq<byte>, r: Record): seq<Entry> {
    if IsAddress(b, r) && |cache| < CACHE_ENTRIES then cache + [Entry(CacheName(name), Address(b, r))] else cache
  }

  lemma RecordsStep(b: seq<byte>, pos: nat, n: nat, r: Record)
    requires n > 0 && pos < |b| && Skipped(b, pos) + 10 <= |b| && r == RecordAt(b, Skipped(b, pos))
    ensures Records(b, pos, n) == [r] + Records(b, r.at + r.len, n - 1)
  {
  }

  lemma AnswerStep(b: seq<byte>, cache: seq<Entry>, name: seq<byte>, seen: seq<Record>, r: Record)
    ensures Last(Addresses(b, seen + [r])) == Answered(b, r, Last(Addresses(b, seen)))
    ensures Cached(cache, name, Addresses(b, seen + [r]))
      == Extended(Cached(cache, name, Addresses(b, seen)), name, b, r)
  {
    RecordStep(b, seen, r);
    var ips := Addresses(b, seen);
    if IsAddress(b, r) {
      CacheStep(cache, name, ips, Address(b, r));
    } else {
      assert ips + [] == ips;
    }
  }

  lemma WalkStep(b: seq<byte>, cache: seq<Entry>, name: seq<byte>, all: seq<Record>, seen: seq<Record>, pos: nat,
                 n: nat, ip: Option<nat>, cache': seq<Entry>, r: Record)
    requires Walking(b, cache, name, all, seen, pos, n, ip, cache') && n > 0 && pos < |b|
    requires Skipped(b, pos) + 10 <= |b| && r == RecordAt(b, Skipped(b, pos))
    ensures Walking(b, cache, name, all, seen + [r], r.at + r.len, n - 1, Answered(b, r, ip),
      Extended(cache', name, b, r))
  {
    RecordsStep(b, pos, n, r);
    RecordsAssoc(seen, r, Records(b, r.at + r.len, n - 1));
    AnswerStep(b, cache, name, seen, r);
  }

  /** One record of the walk. */
  method Visit(b: seq<byte>, p: nat, name: seq<byte>, ip: Option<nat>, cache: seq<Entry>)
    returns (next: nat, ip': Option<nat>, cache': seq<Entry>)
    requires p + 10 <= |b|
    ensures next == RecordAt(b, p).at + RecordAt(b, p).len
    ensures ip' == Answered(b, RecordAt(b, p), ip) && cache' == Extended(cache, name, b, RecordAt(b, p))
  {
    var kind, len := U16(b, p), U16(b, p + 8);
    ip', cache' := ip, cache;
    if kind == 1 && len == 4 && p + 14 <= |b| {
      var a := (U16(b, p + 10) * 256 + b[p + 12]) * 256 + b[p + 13];
      if |cache| < CACHE_ENTRIES {
        cache' := cache + [Entry(CacheName(name), a)];
      }
      ip' := Some(a);
    }
    next := p + 10 + len;
  }

  lemma RecordsAssoc(a: seq<Record>, r: Record, c: seq<Record>)
    ensures a + ([r] + c) == a + [r] + c
  {
  }

  /** The answer walk of dns_resolve over any datagram: it ends, and reports the last well-formed address record. */
  method Answer(b: seq<byte>, name: seq<byte>, cache: seq<Entry>) returns (ip: Option<nat>, cache': seq<Entry>)
    requires |b| > HEADER
    ensures ip == Last(Offered(b)) && cache' == Cached(cache, name, Offered(b))
  {
    var count := U16(b, 6);
    var question := Skip(b, HEADER);
    var pos: nat := question + 4;
    ghost var all, seen := Records(b, pos, count), [];
    ip, cache' := None, cache;
    var i := 0;
    while i < count && pos < |b|
      invariant 0 <= i <= count && Walking(b, cache, name, all, seen, pos, count - i, ip, cache')
      decreases count - i
    {
      var p := Skip(b, pos);
      if p + 10 > |b| {
        break;
      }
      ghost var r := RecordAt(b, p);
      WalkStep(b, cache, name, all, seen, pos, count - i, ip, cache', r);
      pos, ip, cache' := Visit(b, p, name, ip, cache');
      seen := seen + [r];
      i := i + 1;
    }
    assert seen + [] == seen;
  }

  // ---- what the cache answers ----

  lemma {:induction false} LookupConcat(a: seq<Entry>, c: seq<Entry>, name: seq<byte>)
    ensures Lookup(a + c, name) == if Lookup(a, name) == None then Lookup(c, name) else Lookup(a, name)
  {
    if a == [] {
      assert a + c == c;
    } else {
      assert (a + c)[1..] == a[1..] + c;
      LookupConcat(a[1..], c, name);
    }
  }

  lemma {:induction false} LookupCached(cache: seq<Entry>, name: seq<byte>, ips: seq<nat>)
    requires |cache| < 8 && |name| <= 63 && Lookup(cache, name) == None && ips != []
    ensures Lookup(Cached(cache, name, ips), name) == Some(ips[0])
  {
    var n := |ips| - 1;
    var c := Cached(cache, name, ips[..n]);
    assert CacheName(name) == name;
    LookupConcat(c, [Entry(name, ips[n])], name);
    if n > 0 {
      LookupCached(cache, name, ips[..n]);
    }
  }

  /** The cache takes the first addresses, as many as there is room for among eight entries. */
  lemma {:induction false} CachedFirst(cache: seq<Entry>, name: seq<byte>, ips: seq<nat>)
    requires |cache| <= 8
    ensures var n := if |ips| < 8 - |cache| then |ips| else 8 - |cache|;
      Cached(cache, name, ips) == cache + seq(n, i requires 0 <= i < n => Entry(CacheName(name), ips[i]))
  {
    if ips != [] {
      CachedFirst(cache, name, ips[..|ips| - 1]);
    }
  }

  /** A name that does not fit an entry is cached cut off, so its own lookups never find it. */
  lemma {:induction false} LongNameNotCached(cache: seq<Entry>, name: seq<byte>, ips: seq<nat>)
    requires |name| > 63
    ensures Lookup(Cached(cache, name, ips), name) == Lookup(cache, name)
  {
    if ips != [] {
      var n := |ips| - 1;
      LongNameNotCached(cache, name, ips[..n]);
      LookupConcat(Cached(cache, name, ips[..n]), [Entry(CacheName(name), ips[n])], name);
    }
  }

  /** A later lookup from the cache answers what the resolution answered exactly if the first and last address agree. */
  lemma CacheAgreesExactly(cache: seq<Entry>, name: seq<byte>, ips: seq<nat>)
    requires |cache| < 8 && |name| <= 63 && Lookup(cache, name) == None && ips != []
    ensures Lookup(Cached(cache, name, ips), name) == Last(ips) <==> ips[0] == ips[|ips| - 1]
  {
    LookupCached(cache, name, ips);
  }

  /** A response with two addresses is answered by the second and then, from the cache, by the first. */
  lemma CacheDisagrees(name: seq<byte>, a: nat, b: nat)
    requires |name| <= 63 && a != b
    ensures Last([a, b]) == Some(b) && Lookup(Cached([], name, [a, b]), name) == Some(a)
  {
    LookupCached([], name, [a, b]);
  }
}
