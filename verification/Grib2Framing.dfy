/** Exact framing of a GRIB2 byte stream: adjacent messages and nothing else
    (FM 92 GRIB edition 2, Section 0 and Section 8). */
module Grib2Framing {

  type byte = x: int | 0 <= x < 256

  datatype FrameError =
    | IncompleteFragment | NonMessageBytes | WrongEdition | InvalidLength | Truncated | MissingTerminator | NoMessages
    | ParserFailed | ParserDisagrees

  datatype Result<+T> = Ok(value: T) | Err(error: FrameError)

  /** "GRIB" stands at offset i. */
  predicate GribAt(bytes: seq<byte>, i: nat) {
    i + 4 <= |bytes| && bytes[i] == 0x47 && bytes[i + 1] == 0x52 && bytes[i + 2] == 0x49 && bytes[i + 3] == 0x42
  }

  /** "7777" ends at offset end. */
  predicate SevensBefore(bytes: seq<byte>, end: nat) {
    4 <= end <= |bytes| && bytes[end - 4] == 0x37 && bytes[end - 3] == 0x37 && bytes[end - 2] == 0x37 && bytes[end - 1] == 0x37
  }

  function BigEndian(bytes: seq<byte>): nat {
    if bytes == [] then 0 else BigEndian(bytes[..|bytes| - 1]) * 256 + bytes[|bytes| - 1]
  }

  /** The total length declared by the indicator section at offset i. */
  function DeclaredLength(bytes: seq<byte>, i: nat): nat
    requires i + 16 <= |bytes|
  {
    BigEndian(bytes[i + 8..i + 16])
  }

  /** m is one well-framed message: indicator, edition 2, its own length, terminator. */
  predicate IsMessage(m: seq<byte>) {
    && |m| >= 20 && GribAt(m, 0) && m[7] == 2
    && DeclaredLength(m, 0) == |m| && SevensBefore(m, |m|)
  }

  // ---- messages as they are written ----

  /** The low k octets of n, the most significant first. */
  function OctetsOf(n: nat, k: nat): (r: seq<byte>)
    ensures |r| == k
  {
    if k == 0 then [] else OctetsOf(n / 256, k - 1) + [n % 256]
  }

  function OctetLimit(k: nat): nat { if k == 0 then 1 else 256 * OctetLimit(k - 1) }

  lemma LengthLimit()
    ensures OctetLimit(8) == 0x1_0000_0000_0000_0000
  {
    assert OctetLimit(4) == 0x1_0000_0000;
    assert OctetLimit(6) == 0x1_0000_0000_0000;
  }

  lemma {:induction false} WrittenOctetsRead(n: nat, k: nat)
    requires n < OctetLimit(k)
    ensures BigEndian(OctetsOf(n, k)) == n
  {
    if k > 0 {
      WrittenOctetsRead(n / 256, k - 1);
      var octets := OctetsOf(n, k);
      assert octets[..k - 1] == OctetsOf(n / 256, k - 1);
    }
  }

  lemma {:induction false} ReadOctetsWritten(bytes: seq<byte>)
    ensures BigEndian(bytes) < OctetLimit(|bytes|)
    ensures OctetsOf(BigEndian(bytes), |bytes|) == bytes
  {
    if bytes != [] {
      var front, last := bytes[..|bytes| - 1], bytes[|bytes| - 1];
      ReadOctetsWritten(front);
      var n := BigEndian(front);
      assert (n * 256 + last) / 256 == n && (n * 256 + last) % 256 == last;
      assert bytes == front + [last];
    }
  }

  /** A message of edition 2 with the given body. */
  function Written(reserved: seq<byte>, discipline: byte, body: seq<byte>): (m: seq<byte>)
    requires |reserved| == 2
    ensures |m| == 20 + |body|
  {
    ['G' as int, 'R' as int, 'I' as int, 'B' as int] + reserved + [discipline, 2] + OctetsOf(20 + |body|, 8)
    + body + ['7' as int, '7' as int, '7' as int, '7' as int]
  }

  lemma WrittenIsMessage(reserved: seq<byte>, discipline: byte, body: seq<byte>)
    requires |reserved| == 2 && 20 + |body| < 0x1_0000_0000_0000_0000
    ensures IsMessage(Written(reserved, discipline, body))
  {
    var m := Written(reserved, discipline, body);
    LengthLimit();
    WrittenOctetsRead(20 + |body|, 8);
    assert m[8..16] == OctetsOf(20 + |body|, 8);
  }

  lemma MessageIsWritten(m: seq<byte>) returns (reserved: seq<byte>, discipline: byte, body: seq<byte>)
    requires IsMessage(m)
    ensures |m| < 0x1_0000_0000_0000_0000
    ensures |reserved| == 2 && m == Written(reserved, discipline, body)
  {
    reserved, discipline, body := m[4..6], m[6], m[16..|m| - 4];
    LengthLimit();
    ReadOctetsWritten(m[8..16]);
    assert OctetsOf(|m|, 8) == m[8..16];
    var front := ['G' as int, 'R' as int, 'I' as int, 'B' as int];
    assert m[..4] == front;
    assert m[6..8] == [discipline, 2];
    assert m[|m| - 4..] == ['7' as int, '7' as int, '7' as int, '7' as int];
    assert m == m[..4] + m[4..6] + m[6..8] + m[8..16] + body + m[|m| - 4..];
  }

  /** A written message is framed as itself alone. */
  lemma WrittenAccepted(reserved: seq<byte>, discipline: byte, body: seq<byte>)
    requires |reserved| == 2 && 20 + |body| < 0x1_0000_0000_0000_0000
    ensures var m := Written(reserved, discipline, body);
      Framed(m) && forall ms :: FramedAs(m, ms) ==> |ms| == 1
  {
    hide IsMessage, Written;
    var m := Written(reserved, discipline, body);
    WrittenIsMessage(reserved, discipline, body);
    assert Concat([m]) == m + Concat([m][1..]) == m;
    assert FramedAs(m, [m]);
    forall ms | FramedAs(m, ms) ensures |ms| == 1 { FramingUnique(m, ms, [m]); }
  }

  ghost predicate AllMessages(ms: seq<seq<byte>>) {
    forall i :: 0 <= i < |ms| ==> IsMessage(ms[i])
  }

  ghost function Concat(ms: seq<seq<byte>>): seq<byte> {
    if ms == [] then [] else ms[0] + Concat(ms[1..])
  }

  ghost predicate FramedAs(bytes: seq<byte>, ms: seq<seq<byte>>) {
    AllMessages(ms) && Concat(ms) == bytes
  }

  /** The checks the reader makes at one offset, in its order. */
  function MessageEnd(bytes: seq<byte>, offset: nat): (r: Result<nat>)
    requires offset < |bytes|
    ensures r.Ok? ==> offset + 20 <= r.value <= |bytes|
  {
    if |bytes| - offset < 20 then Err(IncompleteFragment)
    else if !GribAt(bytes, offset) then Err(NonMessageBytes)
    else if bytes[offset + 7] != 2 then Err(WrongEdition)
    else
      var total := DeclaredLength(bytes, offset);
      if total < 20 then Err(InvalidLength)
      else if offset + total > |bytes| then Err(Truncated)
      else if !SevensBefore(bytes, offset + total) then Err(MissingTerminator)
      else Ok(offset + total)
  }

  lemma SliceOfSlice(s: seq<byte>, a: nat, b: nat, c: nat, d: nat)
    requires a <= b <= |s| && c <= d <= b - a
    ensures s[a..b][c..d] == s[a + c..a + d]
  {
    var l, r := s[a..b][c..d], s[a + c..a + d];
    assert |l| == |r|;
    forall i | 0 <= i < |l| ensures l[i] == r[i] {
      assert l[i] == s[a..b][c + i] == s[a + c + i];
    }
  }

  /** A message is found at an offset exactly when one lies there. */
  lemma MessageEndExact(bytes: seq<byte>, offset: nat, end: nat)
    requires offset < |bytes|
    ensures MessageEnd(bytes, offset) == Ok(end) <==> offset < end <= |bytes| && IsMessage(bytes[offset..end])
  {
    if offset + 20 <= end <= |bytes| {
      SliceOfSlice(bytes, offset, end, 8, 16);
      assert GribAt(bytes[offset..end], 0) <==> GribAt(bytes, offset);
    }
  }

  /** The first message of a framed stream is the one found at its start. */
  lemma FirstMessage(ms: seq<seq<byte>>, bytes: seq<byte>)
    requires ms != [] && FramedAs(bytes, ms)
    ensures bytes != [] && MessageEnd(bytes, 0) == Ok(|ms[0]|) && bytes[|ms[0]|..] == Concat(ms[1..])
    ensures FramedAs(bytes[|ms[0]|..], ms[1..])
  {
    assert bytes == ms[0] + Concat(ms[1..]);
    assert bytes[0..|ms[0]|] == ms[0];
    MessageEndExact(bytes, 0, |ms[0]|);
  }

  /** A byte string splits into messages in at most one way. */
  lemma {:induction false} FramingUnique(bytes: seq<byte>, ms: seq<seq<byte>>, ns: seq<seq<byte>>)
    requires FramedAs(bytes, ms) && FramedAs(bytes, ns)
    ensures ms == ns
    decreases |ms|
  {
    if ms != [] && ns != [] {
      FirstMessage(ms, bytes);
      FirstMessage(ns, bytes);
      FramingUnique(bytes[|ms[0]|..], ms[1..], ns[1..]);
      assert ms[0] == bytes[..|ms[0]|] == ns[0];
      assert ms == [ms[0]] + ms[1..] && ns == [ns[0]] + ns[1..];
    } else if ms != [] {
      FirstMessage(ms, bytes);
    } else if ns != [] {
      FirstMessage(ns, bytes);
    }
  }

  lemma {:induction false} ConcatAppends(ms: seq<seq<byte>>, ns: seq<seq<byte>>)
    ensures Concat(ms + ns) == Concat(ms) + Concat(ns)
  {
    if ms == [] {
      assert ms + ns == ns;
    } else {
      assert (ms + ns)[1..] == ms[1..] + ns;
      ConcatAppends(ms[1..], ns);
    }
  }

  /** Framing is a homomorphism over concatenation. */
  lemma FramingConcat(a: seq<byte>, b: seq<byte>, ms: seq<seq<byte>>, ns: seq<seq<byte>>)
    requires FramedAs(a, ms) && FramedAs(b, ns)
    ensures FramedAs(a + b, ms + ns)
  {
    ConcatAppends(ms, ns);
  }

  /** And a framed prefix leaves exactly the framing of the rest. */
  lemma {:induction false} FramingRest(a: seq<byte>, b: seq<byte>, ms: seq<seq<byte>>, all: seq<seq<byte>>)
    requires FramedAs(a, ms) && FramedAs(a + b, all)
    ensures |ms| <= |all| && all[..|ms|] == ms && FramedAs(b, all[|ms|..])
    decreases |ms|
  {
    if ms == [] {
      assert a + b == b;
    } else {
      FirstMessage(ms, a);
      var n := |ms[0]|;
      MessageEndExact(a, 0, n);
      assert (a + b)[0..n] == a[0..n];
      MessageEndExact(a + b, 0, n);
      assert all != [];
      FirstMessage(all, a + b);
      assert (a + b)[n..] == a[n..] + b;
      FramingRest(a[n..], b, ms[1..], all[1..]);
      assert all[0] == (a + b)[..n] == ms[0];
      assert all == [all[0]] + all[1..] && ms == [ms[0]] + ms[1..];
      assert all[1..][..|ms| - 1] == ms[1..];
      assert all[|ms|..] == all[1..][|ms| - 1..];
    }
  }

  ghost predicate Framed(bytes: seq<byte>) {
    exists ms :: ms != [] && FramedAs(bytes, ms)
  }

  const INDICATOR: seq<byte> := ['G' as int, 'R' as int, 'I' as int, 'B' as int]

  const TERMINATOR: seq<byte> := ['7' as int, '7' as int, '7' as int, '7' as int]

  /** What is wrong with bytes that do not begin with a message. */
  ghost predicate Fault(rest: seq<byte>, error: FrameError) {
    if |rest| < 20 then error == IncompleteFragment
    else if rest[..4] != INDICATOR then error == NonMessageBytes
    else if rest[7] != 2 then error == WrongEdition
    else
      var length := BigEndian(rest[8..16]);
      match error
      case InvalidLength => length < 20
      case Truncated => length > |rest|
      case MissingTerminator => 20 <= length <= |rest| && rest[length - 4..length] != TERMINATOR
      case _ => false
  }

  lemma IndicatorAgrees(bytes: seq<byte>, offset: nat)
    requires offset + 4 <= |bytes|
    ensures GribAt(bytes, offset) <==> bytes[offset..][..4] == INDICATOR
  {
    var slice := bytes[offset..][..4];
    assert slice[0] == bytes[offset] && slice[1] == bytes[offset + 1];
    assert slice[2] == bytes[offset + 2] && slice[3] == bytes[offset + 3];
  }

  lemma LengthAgrees(bytes: seq<byte>, offset: nat)
    requires offset + 16 <= |bytes|
    ensures DeclaredLength(bytes, offset) == BigEndian(bytes[offset..][8..16])
  {
    assert bytes[offset..] == bytes[offset..|bytes|];
    SliceOfSlice(bytes, offset, |bytes|, 8, 16);
  }

  lemma TerminatorAgrees(bytes: seq<byte>, offset: nat, length: nat)
    requires 4 <= length && offset + length <= |bytes|
    ensures SevensBefore(bytes, offset + length) <==> bytes[offset..][length - 4..length] == TERMINATOR
  {
    var slice := bytes[offset..][length - 4..length];
    assert slice[0] == bytes[offset + length - 4] && slice[1] == bytes[offset + length - 3];
    assert slice[2] == bytes[offset + length - 2] && slice[3] == bytes[offset + length - 1];
  }

  /** The reported error is the fault. */
  lemma FaultExact(bytes: seq<byte>, offset: nat, error: FrameError)
    requires offset < |bytes|
    ensures MessageEnd(bytes, offset) == Err(error) <==> Fault(bytes[offset..], error)
  {
    if |bytes| - offset >= 20 {
      hide GribAt, SevensBefore, DeclaredLength, BigEndian;
      IndicatorAgrees(bytes, offset);
      LengthAgrees(bytes, offset);
      var length := DeclaredLength(bytes, offset);
      if 20 <= length && offset + length <= |bytes| { TerminatorAgrees(bytes, offset, length); }
    }
  }

  /** The first message that is wrong starts at offset and has this fault. */
  ghost predicate FailsAt(bytes: seq<byte>, offset: nat, error: FrameError) {
    && offset < |bytes| && Fault(bytes[offset..], error)
    && exists done :: FramedAs(bytes[..offset], done)
  }

  lemma BadMessageNotFramed(bytes: seq<byte>, offset: nat, done: seq<seq<byte>>)
    requires offset < |bytes| && FramedAs(bytes[..offset], done) && MessageEnd(bytes, offset).Err?
    ensures !Framed(bytes)
  {
    forall all | FramedAs(bytes, all) ensures false {
      assert bytes == bytes[..offset] + bytes[offset..];
      FramingRest(bytes[..offset], bytes[offset..], done, all);
      var rest := all[|done|..];
      assert rest != [];
      FirstMessage(rest, bytes[offset..]);
      var n := |rest[0]|;
      MessageEndExact(bytes[offset..], 0, n);
      assert bytes[offset..][0..n] == bytes[offset..offset + n];
      MessageEndExact(bytes, offset, offset + n);
      assert false;
    }
  }

  /** The framing loop: accepts exactly the nonempty concatenations of well-framed
      messages, and counts them. */
  method CheckFraming(bytes: seq<byte>) returns (r: Result<nat>)
    ensures r.Ok? <==> Framed(bytes)
    ensures r.Ok? ==> forall ms :: FramedAs(bytes, ms) ==> r.value == |ms|
    ensures bytes == [] ==> r == Err(NoMessages)
    ensures bytes != [] && r.Err? ==> exists at: nat :: FailsAt(bytes, at, r.error)
  {
    var offset, expected := 0, 0;
    ghost var done: seq<seq<byte>> := [];
    while offset < |bytes|
      invariant 0 <= offset <= |bytes|
      invariant FramedAs(bytes[..offset], done) && expected == |done|
      invariant offset > 0 <==> done != []
    {
      var end := MessageEnd(bytes, offset);
      if end.Err? {
        BadMessageNotFramed(bytes, offset, done);
        FaultExact(bytes, offset, end.error);
        assert FailsAt(bytes, offset, end.error);
        return Err(end.error);
      }
      MessageEndExact(bytes, offset, end.value);
      ghost var m := bytes[offset..end.value];
      ConcatAppends(done, [m]);
      assert Concat([m]) == m + Concat([m][1..]) == m;
      assert bytes[..end.value] == bytes[..offset] + m;
      done := done + [m];
      expected, offset := expected + 1, end.value;
    }
    assert bytes[..offset] == bytes;
    if expected == 0 {
      forall ms | ms != [] && FramedAs(bytes, ms) ensures false { FirstMessage(ms, bytes); }
      return Err(NoMessages);
    }
    forall ms | FramedAs(bytes, ms) ensures ms == done { FramingUnique(bytes, ms, done); }
    return Ok(expected);
  }
}
