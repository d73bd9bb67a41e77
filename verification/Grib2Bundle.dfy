/** Component objects: stripping the WMO bulletin envelope, and assembling several
    components into one logical GRIB2 stream. */
module Grib2Bundle {
  import opened Basics
  import opened Grib2Framing

  const MAX_WMO_BULLETIN_HEADER_BYTES := 1024
  const MAX_COMPONENT_BUNDLE_OBJECTS := 512
  const MAX_COMPONENT_BUNDLE_BYTES := 512 * 1024 * 1024

  const SOH: byte := 1
  const ETX: byte := 3
  const CR: byte := 13
  const LF: byte := 10

  datatype EnvelopeError =
    | NeitherBareNorBulletin | NoIndicator | HeadingNotTerminated | HeadingNotPrintable | EndsInIndicator
    | BulletinEdition | BulletinLength | BulletinTruncated | BulletinTerminator | BulletinTail

  datatype Payload = Carried(message: seq<byte>) | Rejected(error: EnvelopeError)

  predicate HeadingByte(x: byte) { 32 <= x <= 126 || x == CR || x == LF }

  predicate CrCrLfAt(bytes: seq<byte>, i: nat) {
    i + 3 <= |bytes| && bytes[i] == CR && bytes[i + 1] == CR && bytes[i + 2] == LF
  }

  /** Printable ASCII, carriage returns and line feeds. */
  ghost predicate Printable(heading: seq<byte>) {
    forall x :: x in heading ==> ' ' as int <= x <= '~' as int || x == '\r' as int || x == '\n' as int
  }

  /** bytes is SOH, heading, CR CR LF, message, CR CR LF ETX. */
  ghost predicate IsEnvelope(bytes: seq<byte>, heading: seq<byte>, m: seq<byte>) {
    && bytes == [SOH] + heading + [CR, CR, LF] + m + [CR, CR, LF, ETX]
    && IsMessage(m)
    && |heading| + 4 <= MAX_WMO_BULLETIN_HEADER_BYTES
    && Printable(heading)
    && forall i: nat :: !GribAt(heading, i)
  }

  /** The first "GRIB" that starts and ends before limit. */
  method FindGrib(bytes: seq<byte>, limit: nat) returns (at: Option<nat>)
    requires limit <= |bytes|
    ensures at.Some? ==> at.value + 4 <= limit && GribAt(bytes, at.value)
    ensures at.Some? ==> forall i: nat :: i < at.value ==> !GribAt(bytes, i)
    ensures at.None? ==> forall i: nat :: i + 4 <= limit ==> !GribAt(bytes, i)
  {
    var i := 0;
    while i + 4 <= limit
      invariant forall k: nat :: k < i ==> !GribAt(bytes, k)
      decreases limit - i
    {
      if GribAt(bytes, i) {
        return Some(i);
      }
      i := i + 1;
    }
    return None;
  }

  method HeadingPrintable(bytes: seq<byte>, end: nat) returns (ok: bool)
    requires 1 <= end <= |bytes|
    ensures ok <==> forall i :: 1 <= i < end ==> HeadingByte(bytes[i])
  {
    for i := 1 to end
      invariant forall k :: 1 <= k < i ==> HeadingByte(bytes[k])
    {
      if !HeadingByte(bytes[i]) {
        return false;
      }
    }
    return true;
  }

  /** What the checks require of an indicator at offset g with a message up to end. */
  ghost predicate WrapsAt(bytes: seq<byte>, g: nat, end: nat) {
    && 4 <= g < end && end + 4 == |bytes| && g + 4 <= MAX_WMO_BULLETIN_HEADER_BYTES + 4
    && bytes[0] == SOH && GribAt(bytes, g) && (forall i: nat :: i < g ==> !GribAt(bytes, i))
    && CrCrLfAt(bytes, g - 3) && (forall i :: 1 <= i < g - 3 ==> HeadingByte(bytes[i]))
    && IsMessage(bytes[g..end]) && CrCrLfAt(bytes, end) && bytes[end + 3] == ETX
  }

  /** The checks hold exactly of an envelope, whose parts they locate. */
  lemma WrapIsEnvelope(bytes: seq<byte>, g: nat, end: nat)
    requires WrapsAt(bytes, g, end)
    ensures IsEnvelope(bytes, bytes[1..g - 3], bytes[g..end])
  {
    var heading, m := bytes[1..g - 3], bytes[g..end];
    assert bytes[..1] == [SOH] && bytes[g - 3..g] == [CR, CR, LF] && bytes[end..] == [CR, CR, LF, ETX];
    assert bytes == bytes[..1] + heading + bytes[g - 3..g] + m + bytes[end..];
    forall i: nat ensures !GribAt(heading, i) {
      if GribAt(heading, i) { assert GribAt(bytes, i + 1); }
    }
  }

  lemma EnvelopeLayout(bytes: seq<byte>, heading: seq<byte>, m: seq<byte>)
    requires IsEnvelope(bytes, heading, m)
    ensures var g, end := |heading| + 4, |heading| + 4 + |m|;
            && |bytes| == end + 4 && bytes[0] == SOH && bytes[1..g - 3] == heading && bytes[g..end] == m
            && CrCrLfAt(bytes, g - 3) && CrCrLfAt(bytes, end) && bytes[end + 3] == ETX
  {
    var g, end := |heading| + 4, |heading| + 4 + |m|;
    assert bytes[1..g - 3] == heading;
    assert bytes[g..end] == m;
  }

  lemma EnvelopeWraps(bytes: seq<byte>, heading: seq<byte>, m: seq<byte>)
    requires IsEnvelope(bytes, heading, m)
    ensures WrapsAt(bytes, |heading| + 4, |heading| + 4 + |m|)
  {
    var g, end := |heading| + 4, |heading| + 4 + |m|;
    EnvelopeLayout(bytes, heading, m);
    assert bytes[g] == m[0] && bytes[g + 1] == m[1] && bytes[g + 2] == m[2] && bytes[g + 3] == m[3];
    assert forall i :: 0 <= i < |heading| ==> bytes[i + 1] == heading[i];
    forall i: nat | i < g ensures !GribAt(bytes, i) {
      if 1 <= i && i + 4 <= g - 3 {
        assert !GribAt(heading, i - 1);
      }
    }
    forall i | 1 <= i < g - 3 ensures HeadingByte(bytes[i]) {
      assert bytes[i] == heading[i - 1] && heading[i - 1] in heading;
    }
  }

  lemma WrapUnique(bytes: seq<byte>, g: nat, end: nat, g': nat, end': nat)
    requires WrapsAt(bytes, g, end) && WrapsAt(bytes, g', end')
    ensures g == g' && end == end'
  {
  }

  /** An envelope has one heading and one message. */
  lemma EnvelopeUnique(bytes: seq<byte>, h: seq<byte>, m: seq<byte>, h': seq<byte>, m': seq<byte>)
    requires IsEnvelope(bytes, h, m) && IsEnvelope(bytes, h', m')
    ensures h == h' && m == m'
  {
    EnvelopeWraps(bytes, h, m);
    EnvelopeWraps(bytes, h', m');
    WrapUnique(bytes, |h| + 4, |h| + 4 + |m|, |h'| + 4, |h'| + 4 + |m'|);
    EnvelopeLayout(bytes, h, m);
    EnvelopeLayout(bytes, h', m');
  }

  ghost predicate Enveloped(bytes: seq<byte>) {
    exists h, m :: IsEnvelope(bytes, h, m)
  }

  lemma NotEnveloped(bytes: seq<byte>)
    requires forall g: nat, end: nat :: !WrapsAt(bytes, g, end)
    ensures !Enveloped(bytes)
  {
    forall h, m ensures !IsEnvelope(bytes, h, m) {
      if IsEnvelope(bytes, h, m) { EnvelopeWraps(bytes, h, m); }
    }
  }

  /** The message checks behind the indicator at g, in the reader's order. */
  function BulletinMessage(bytes: seq<byte>, g: nat): Payload
    requires GribAt(bytes, g)
  {
    if g + 16 > |bytes| then Rejected(EndsInIndicator)
    else if bytes[g + 7] != 2 then Rejected(BulletinEdition)
    else
      var length := DeclaredLength(bytes, g);
      if length < 20 then Rejected(BulletinLength)
      else if g + length > |bytes| then Rejected(BulletinTruncated)
      else if !SevensBefore(bytes, g + length) then Rejected(BulletinTerminator)
      else if !(g + length + 4 == |bytes| && CrCrLfAt(bytes, g + length) && bytes[g + length + 3] == ETX) then
        Rejected(BulletinTail)
      else Carried(bytes[g..g + length])
  }

  ghost predicate MessageTail(bytes: seq<byte>, g: nat, end: nat) {
    && g < end && end + 4 == |bytes|
    && IsMessage(bytes[g..end]) && CrCrLfAt(bytes, end) && bytes[end + 3] == ETX
  }

  lemma BulletinMessageExact(bytes: seq<byte>, g: nat, end: nat)
    requires GribAt(bytes, g) && end + 4 == |bytes|
    ensures BulletinMessage(bytes, g).Carried? <==> MessageTail(bytes, g, end)
    ensures MessageTail(bytes, g, end) ==> BulletinMessage(bytes, g) == Carried(bytes[g..end])
  {
    if g < end { MessageEndExact(bytes, g, end); }
  }

  /** What is wrong with an object that carries no message; the message, if there is one,
      starts at g. */
  ghost predicate BulletinFault(bytes: seq<byte>, g: nat, error: EnvelopeError) {
    if bytes == [] || bytes[0] != 0x01 then error == NeitherBareNorBulletin
    else if forall i: nat :: i + 4 <= |bytes| && i <= 1024 ==> !GribAt(bytes, i) then error == NoIndicator
    else
      && g + 4 <= |bytes| && GribAt(bytes, g) && (forall i: nat :: i < g ==> !GribAt(bytes, i))
      && if g < 4 || bytes[g - 3..g] != [0x0D, 0x0D, 0x0A] then error == HeadingNotTerminated
         else if !Printable(bytes[1..g - 3]) then error == HeadingNotPrintable
         else MessageFault(bytes[g..], error)
  }

  ghost predicate MessageFault(rest: seq<byte>, error: EnvelopeError) {
    if |rest| < 16 then error == EndsInIndicator
    else if rest[7] != 2 then error == BulletinEdition
    else
      var length := BigEndian(rest[8..16]);
      match error
      case BulletinLength => length < 20
      case BulletinTruncated => length > |rest|
      case BulletinTerminator => 20 <= length <= |rest| && rest[length - 4..length] != TERMINATOR
      case BulletinTail =>
        && 20 <= length <= |rest| && rest[length - 4..length] == TERMINATOR
        && rest[length..] != [0x0D, 0x0D, 0x0A, 0x03]
      case _ => false
  }

  lemma TailAgrees(bytes: seq<byte>, g: nat, length: nat)
    requires g + length <= |bytes|
    ensures bytes[g..][length..] == [CR, CR, LF, ETX] <==>
      g + length + 4 == |bytes| && CrCrLfAt(bytes, g + length) && bytes[g + length + 3] == ETX
  {
    var tail := bytes[g..][length..];
    assert tail == bytes[g + length..];
    if |tail| == 4 {
      assert tail[0] == bytes[g + length] && tail[1] == bytes[g + length + 1];
      assert tail[2] == bytes[g + length + 2] && tail[3] == bytes[g + length + 3];
    }
  }

  lemma MessageFaultExact(bytes: seq<byte>, g: nat)
    requires GribAt(bytes, g) && BulletinMessage(bytes, g).Rejected?
    ensures MessageFault(bytes[g..], BulletinMessage(bytes, g).error)
  {
    hide SevensBefore, DeclaredLength, BigEndian, CrCrLfAt;
    if g + 16 <= |bytes| && bytes[g + 7] == 2 {
      LengthAgrees(bytes, g);
      var length := DeclaredLength(bytes, g);
      if 20 <= length && g + length <= |bytes| {
        TerminatorAgrees(bytes, g, length);
        TailAgrees(bytes, g, length);
      }
    }
  }

  lemma HeadingAgrees(bytes: seq<byte>, g: nat)
    requires 4 <= g <= |bytes|
    ensures CrCrLfAt(bytes, g - 3) <==> bytes[g - 3..g] == [0x0D, 0x0D, 0x0A]
    ensures (forall i :: 1 <= i < g - 3 ==> HeadingByte(bytes[i])) <==> Printable(bytes[1..g - 3])
  {
    var slice, heading := bytes[g - 3..g], bytes[1..g - 3];
    assert slice[0] == bytes[g - 3] && slice[1] == bytes[g - 2] && slice[2] == bytes[g - 1];
    forall i | 1 <= i < g - 3 ensures bytes[i] in heading { assert heading[i - 1] == bytes[i]; }
  }

  /** A wrapping has its indicator at the first "GRIB". */
  lemma WrapAtFirst(bytes: seq<byte>, g: nat, end: nat, first: nat)
    requires WrapsAt(bytes, g, end) && GribAt(bytes, first) && forall i: nat :: i < first ==> !GribAt(bytes, i)
    ensures g == first
  {
  }

  /** The envelope checks in the reader's order. */
  method StripBulletin(bytes: seq<byte>) returns (r: Payload, ghost g: nat)
    ensures r.Carried? ==> 4 <= g <= |bytes| - 4 && WrapsAt(bytes, g, |bytes| - 4) && r.message == bytes[g..|bytes| - 4]
    ensures r.Rejected? ==> forall at: nat, end: nat :: !WrapsAt(bytes, at, end)
    ensures r.Rejected? ==> BulletinFault(bytes, g, r.error)
  {
    hide IsMessage, BulletinMessage, MessageFault;
    g := 0;
    if bytes == [] || bytes[0] != SOH {
      return Rejected(NeitherBareNorBulletin), g;
    }
    var scanEnd := if |bytes| < MAX_WMO_BULLETIN_HEADER_BYTES + 4 then |bytes| else MAX_WMO_BULLETIN_HEADER_BYTES + 4;
    var found := FindGrib(bytes, scanEnd);
    if found.None? {
      return Rejected(NoIndicator), g;
    }
    var at := found.value;
    g := at;
    forall h: nat, end: nat | WrapsAt(bytes, h, end) ensures h == at { WrapAtFirst(bytes, h, end, at); }
    if at >= 4 { HeadingAgrees(bytes, at); }
    if at < 4 || !CrCrLfAt(bytes, at - 3) {
      return Rejected(HeadingNotTerminated), g;
    }
    var printable := HeadingPrintable(bytes, at - 3);
    if !printable {
      return Rejected(HeadingNotPrintable), g;
    }
    r := BulletinMessage(bytes, at);
    BulletinMessageExact(bytes, at, |bytes| - 4);
    if r.Rejected? { MessageFaultExact(bytes, at); }
  }

  /** The message carried by a bare object or by a bulletin. A bulletin is accepted
      exactly when it is an envelope, and then its message comes back. */
  method ComponentPayload(bytes: seq<byte>) returns (r: Payload)
    ensures GribAt(bytes, 0) ==> r == Carried(bytes)
    ensures !GribAt(bytes, 0) ==> (r.Carried? <==> Enveloped(bytes))
    ensures !GribAt(bytes, 0) ==> forall h, m :: IsEnvelope(bytes, h, m) ==> r == Carried(m)
    ensures r.Rejected? ==> exists g: nat :: BulletinFault(bytes, g, r.error)
  {
    hide IsEnvelope, WrapsAt, BulletinFault;
    if GribAt(bytes, 0) {
      return Carried(bytes);
    }
    ghost var g: nat;
    r, g := StripBulletin(bytes);
    if r.Rejected? {
      NotEnveloped(bytes);
      return;
    }
    WrapIsEnvelope(bytes, g, |bytes| - 4);
    ghost var heading := bytes[1..g - 3];
    forall h, m | IsEnvelope(bytes, h, m) ensures r == Carried(m) {
      EnvelopeUnique(bytes, h, m, heading, r.message);
    }
  }

  // ---- bundles ----

  /** How many messages the permissive parser realizes in a byte string, if it
      accepts it at all. */
  type Parser = seq<byte> -> Option<nat>

  /** What keeps the strict reader from accepting the bytes. */
  ghost predicate Incomplete(bytes: seq<byte>, parser: Parser, error: FrameError) {
    if bytes == [] then error == NoMessages
    else if !Framed(bytes) then exists at: nat :: FailsAt(bytes, at, error)
    else if parser(bytes).None? then error == ParserFailed
    else error == ParserDisagrees && forall ms :: FramedAs(bytes, ms) ==> parser(bytes) != Some(|ms|)
  }

  /** The strict reader: framing first, then the parser must realize every message. */
  method ParseComplete(bytes: seq<byte>, parser: Parser) returns (r: Result<nat>)
    ensures r.Ok? ==> Framed(bytes) && parser(bytes) == Some(r.value)
    ensures r.Ok? ==> forall ms :: FramedAs(bytes, ms) ==> r.value == |ms|
    ensures r.Err? ==> forall ms :: ms != [] && FramedAs(bytes, ms) ==> parser(bytes) != Some(|ms|)
    ensures r.Err? ==> Incomplete(bytes, parser, r.error)
  {
    hide FailsAt;
    r := CheckFraming(bytes);
    if r.Ok? {
      var realized := parser(bytes);
      if realized.None? {
        return Err(ParserFailed);
      }
      if realized.value != r.value {
        return Err(ParserDisagrees);
      }
    }
  }

  datatype Component = Component(product: string, source: string, bytes: seq<byte>)

  datatype BundleError =
    | WrongObjectCount | DuplicateProduct(product: string)
    | InvalidEnvelope(product: string, envelope: EnvelopeError) | IncompleteComponent(product: string, frame: FrameError)
    | CrossedSources(product: string) | TooManyBytes(product: string) | InvalidBundle(frame: FrameError)

  datatype Bundle = Assembled(source: string, bytes: seq<byte>, count: nat) | Failed(error: BundleError)

  ghost predicate CarriedBy(bytes: seq<byte>, p: seq<byte>) {
    if GribAt(bytes, 0) then p == bytes else exists h :: IsEnvelope(bytes, h, p)
  }

  /** parts are the framings of the payloads of the components, in order. */
  ghost predicate PartsOf(components: seq<Component>, parts: seq<seq<seq<byte>>>) {
    && |parts| == |components|
    && forall i :: 0 <= i < |parts| ==>
         parts[i] != [] && AllMessages(parts[i]) && CarriedBy(components[i].bytes, Concat(parts[i]))
  }

  ghost function Join(parts: seq<seq<seq<byte>>>): seq<seq<byte>> {
    if parts == [] then [] else Join(parts[..|parts| - 1]) + parts[|parts| - 1]
  }

  lemma PartsNone()
    ensures PartsOf([], []) && Join([]) == [] && FramedAs([], [])
  {
  }

  lemma PartsGrow(components: seq<Component>, i: nat, parts: seq<seq<seq<byte>>>, bytes: seq<byte>,
                  payload: seq<byte>, ms: seq<seq<byte>>)
    requires i < |components| && PartsOf(components[..i], parts) && FramedAs(bytes, Join(parts))
    requires ms != [] && FramedAs(payload, ms) && CarriedBy(components[i].bytes, payload)
    ensures PartsOf(components[..i + 1], parts + [ms]) && FramedAs(bytes + payload, Join(parts + [ms]))
    ensures Join(parts + [ms]) == Join(parts) + ms
  {
    hide CarriedBy, AllMessages;
    var longer := parts + [ms];
    assert longer[..|parts|] == parts && longer[|parts|] == ms;
    FramingConcat(bytes, payload, Join(parts), ms);
    assert FramedAs(payload, ms);
  }

  // ---- which bundles can be assembled ----

  /** Everything the bundle needs, with parts the framings of its payloads. */
  ghost predicate Admissible(components: seq<Component>, parser: Parser, parts: seq<seq<seq<byte>>>) {
    && 1 <= |components| <= MAX_COMPONENT_BUNDLE_OBJECTS && ProductsDiffer(components)
    && (forall i :: 0 <= i < |components| ==> components[i].source == components[0].source)
    && PartsOf(components, parts) && PartsParse(parser, parts)
    && |Concat(Join(parts))| <= MAX_COMPONENT_BUNDLE_BYTES && parser(Concat(Join(parts))) == Some(|Join(parts)|)
  }

  ghost predicate ProductsDiffer(components: seq<Component>) {
    forall i, j :: 0 <= i < j < |components| ==> components[i].product != components[j].product
  }

  /** The product is the first that occurred before. */
  ghost predicate RepeatsFirst(components: seq<Component>, product: string) {
    exists i, j :: 0 <= i < j < |components| && components[i].product == components[j].product == product
      && ProductsDiffer(components[..j])
  }

  /** What keeps one component out of a bundle from the given source that already has the
      given size. */
  ghost predicate ComponentFault(c: Component, parser: Parser, source: string, size: nat, error: BundleError) {
    match error
    case InvalidEnvelope(product, envelope) =>
      product == c.product && !GribAt(c.bytes, 0) && exists g: nat :: BulletinFault(c.bytes, g, envelope)
    case IncompleteComponent(product, frame) =>
      product == c.product && exists p :: CarriedBy(c.bytes, p) && Incomplete(p, parser, frame)
    case CrossedSources(product) => product == c.product && c.source != source
    case TooManyBytes(product) =>
      product == c.product && exists p :: CarriedBy(c.bytes, p) && size + |p| > 512 * 1024 * 1024
    case _ => false
  }

  /** What keeps the components from being bundled: their number, a product that repeats,
      the first component at fault, or the parser's view of the whole. */
  ghost predicate BundleFault(components: seq<Component>, parser: Parser, error: BundleError) {
    match error
    case WrongObjectCount => components == [] || |components| > 512
    case DuplicateProduct(product) => RepeatsFirst(components, product)
    case InvalidBundle(frame) =>
      exists parts :: PartsOf(components, parts) && frame in {ParserFailed, ParserDisagrees}
        && Incomplete(Concat(Join(parts)), parser, frame)
    case _ => exists i: nat, parts :: FaultAt(components, parser, i, parts, error)
  }

  ghost predicate FaultAt(components: seq<Component>, parser: Parser, i: nat, parts: seq<seq<seq<byte>>>, error: BundleError) {
    && i < |components| && PartsOf(components[..i], parts)
    && ComponentFault(components[i], parser, components[0].source, |Concat(Join(parts))|, error)
  }

  ghost predicate PartsParse(parser: Parser, parts: seq<seq<seq<byte>>>) {
    forall i :: 0 <= i < |parts| ==> parser(Concat(parts[i])) == Some(|parts[i]|)
  }

  lemma CarriedUnique(bytes: seq<byte>, p: seq<byte>, q: seq<byte>)
    requires CarriedBy(bytes, p) && CarriedBy(bytes, q)
    ensures p == q
  {
    if !GribAt(bytes, 0) {
      var h, k :| IsEnvelope(bytes, h, p) && IsEnvelope(bytes, k, q);
      EnvelopeUnique(bytes, h, p, k, q);
    }
  }

  lemma PartCarried(components: seq<Component>, parts: seq<seq<seq<byte>>>, i: nat, p: seq<byte>)
    requires PartsOf(components, parts) && i < |components| && CarriedBy(components[i].bytes, p)
    ensures parts[i] != [] && FramedAs(p, parts[i])
  {
    CarriedUnique(components[i].bytes, p, Concat(parts[i]));
  }

  /** The parts of the first n components are determined. */
  lemma PartsUnique(components: seq<Component>, n: nat, done: seq<seq<seq<byte>>>, parts: seq<seq<seq<byte>>>)
    requires n <= |components| && PartsOf(components[..n], done) && PartsOf(components, parts)
    ensures parts[..n] == done
  {
    forall i | 0 <= i < n ensures parts[i] == done[i] {
      assert components[..n][i] == components[i];
      PartCarried(components, parts, i, Concat(done[i]));
      FramingUnique(Concat(done[i]), parts[i], done[i]);
    }
  }

  lemma {:induction false} JoinGrows(parts: seq<seq<seq<byte>>>, n: nat)
    requires n <= |parts|
    ensures |Concat(Join(parts[..n]))| <= |Concat(Join(parts))|
  {
    if n < |parts| {
      var init := parts[..|parts| - 1];
      JoinGrows(init, n);
      assert init[..n] == parts[..n];
      ConcatAppends(Join(init), parts[|parts| - 1]);
    } else {
      assert parts[..n] == parts;
    }
  }

  lemma NothingCarried(components: seq<Component>, parser: Parser, i: nat, parts: seq<seq<seq<byte>>>)
    requires i < |components| && forall p :: !CarriedBy(components[i].bytes, p)
    ensures !Admissible(components, parser, parts)
  {
    assert i < |parts| ==> !CarriedBy(components[i].bytes, Concat(parts[i]));
  }

  lemma NothingParses(components: seq<Component>, parser: Parser, i: nat, p: seq<byte>, parts: seq<seq<seq<byte>>>)
    requires i < |components| && CarriedBy(components[i].bytes, p)
    requires forall ms :: ms != [] && FramedAs(p, ms) ==> parser(p) != Some(|ms|)
    ensures !Admissible(components, parser, parts)
  {
    if Admissible(components, parser, parts) {
      PartCarried(components, parts, i, p);
      assert false;
    }
  }

  lemma TooLong(components: seq<Component>, parser: Parser, n: nat, done: seq<seq<seq<byte>>>, parts: seq<seq<seq<byte>>>)
    requires n <= |components| && PartsOf(components[..n], done)
    requires |Concat(Join(done))| > MAX_COMPONENT_BUNDLE_BYTES
    ensures !Admissible(components, parser, parts)
  {
    if Admissible(components, parser, parts) {
      PartsUnique(components, n, done, parts);
      JoinGrows(parts, n);
      assert false;
    }
  }

  lemma WholeFails(components: seq<Component>, parser: Parser, done: seq<seq<seq<byte>>>, parts: seq<seq<seq<byte>>>)
    requires PartsOf(components, done) && parser(Concat(Join(done))) != Some(|Join(done)|)
    ensures !Admissible(components, parser, parts)
  {
    if Admissible(components, parser, parts) {
      assert components[..|components|] == components && parts[..|components|] == parts;
      PartsUnique(components, |components|, done, parts);
      assert false;
    }
  }

  method FirstDuplicate(components: seq<Component>) returns (dup: Option<string>)
    ensures dup.None? <==> ProductsDiffer(components)
    ensures dup.Some? ==> RepeatsFirst(components, dup.value)
  {
    var unique: set<string> := {};
    for i := 0 to |components|
      invariant forall p :: p in unique <==> exists k :: 0 <= k < i && components[k].product == p
      invariant forall k, j :: 0 <= k < j < i ==> components[k].product != components[j].product
    {
      if components[i].product in unique {
        ghost var k :| 0 <= k < i && components[k].product == components[i].product;
        assert ProductsDiffer(components[..i]);
        return Some(components[i].product);
      }
      unique := unique + {components[i].product};
    }
    return None;
  }

  /** One turn of the assembly loop. */
  method AddComponent(ghost components: seq<Component>, i: nat, c: Component, parser: Parser, source: string,
                      bytes: seq<byte>, ghost parts: seq<seq<seq<byte>>>)
    returns (error: Option<BundleError>, bytes': seq<byte>, ghost parts': seq<seq<seq<byte>>>)
    requires i < |components| && c == components[i] && source == components[0].source
    requires PartsOf(components[..i], parts) && PartsParse(parser, parts) && FramedAs(bytes, Join(parts))
    ensures error.None? ==>
      && PartsOf(components[..i + 1], parts') && PartsParse(parser, parts') && FramedAs(bytes', Join(parts'))
      && c.source == source && |bytes'| <= MAX_COMPONENT_BUNDLE_BYTES && Join(parts') != []
    ensures error.Some? ==> forall ps :: !Admissible(components, parser, ps)
    ensures error.Some? ==> FaultAt(components, parser, i, parts, error.value)
  {
    hide PartsOf, IsEnvelope, AllMessages, Join, Admissible, BulletinFault, Incomplete;
    bytes', parts' := bytes, parts;
    var payload := ComponentPayload(c.bytes);
    if payload.Rejected? {
      forall ps ensures !Admissible(components, parser, ps) { NothingCarried(components, parser, i, ps); }
      return Some(InvalidEnvelope(c.product, payload.error)), bytes', parts';
    }
    assert CarriedBy(c.bytes, payload.message);
    hide CarriedBy, GribAt, Enveloped;
    var parsed := ParseComplete(payload.message, parser);
    if parsed.Err? {
      forall ps ensures !Admissible(components, parser, ps) { NothingParses(components, parser, i, payload.message, ps); }
      return Some(IncompleteComponent(c.product, parsed.error)), bytes', parts';
    }
    if c.source != source {
      forall ps ensures !Admissible(components, parser, ps) { CrossedSourcesFail(components, parser, i, ps); }
      return Some(CrossedSources(c.product)), bytes', parts';
    }
    ghost var ms :| ms != [] && FramedAs(payload.message, ms);
    PartsGrow(components, i, parts, bytes, payload.message, ms);
    bytes', parts' := bytes + payload.message, parts + [ms];
    if |bytes'| > MAX_COMPONENT_BUNDLE_BYTES {
      forall ps ensures !Admissible(components, parser, ps) { TooLong(components, parser, i + 1, parts', ps); }
      return Some(TooManyBytes(c.product)), bytes', parts';
    }
    return None, bytes', parts';
  }

  lemma CrossedSourcesFail(components: seq<Component>, parser: Parser, i: nat, parts: seq<seq<seq<byte>>>)
    requires i < |components| && components[i].source != components[0].source
    ensures !Admissible(components, parser, parts)
  {
  }

  /** Assemble a bundle from fetched components. It succeeds exactly on the admissible
      ones; the result is then the concatenation of the component payloads, it is
      framed, and its message count is the sum of the component counts. The final
      framing check can never fail: only the parser can still object. */
  method AssembleBundle(components: seq<Component>, parser: Parser) returns (r: Bundle, ghost parts: seq<seq<seq<byte>>>)
    ensures r.Assembled? <==> exists ps :: Admissible(components, parser, ps)
    ensures r.Assembled? ==>
      && Admissible(components, parser, parts) && r.source == components[0].source
      && r.bytes == Concat(Join(parts)) && FramedAs(r.bytes, Join(parts)) && r.count == |Join(parts)|
    ensures r.Failed? ==> BundleFault(components, parser, r.error)
  {
    hide PartsOf, CarriedBy, AllMessages, Join, ProductsDiffer, PartsParse, RepeatsFirst, FaultAt, FailsAt;
    parts := [];
    PartsNone();
    if components == [] || |components| > MAX_COMPONENT_BUNDLE_OBJECTS {
      return Failed(WrongObjectCount), parts;
    }
    var dup := FirstDuplicate(components);
    if dup.Some? {
      return Failed(DuplicateProduct(dup.value)), parts;
    }
    var source := components[0].source;
    var bytes: seq<byte> := [];
    NoPartsParse(parser);
    for i := 0 to |components|
      invariant PartsOf(components[..i], parts) && PartsParse(parser, parts)
      invariant FramedAs(bytes, Join(parts)) && (i > 0 ==> Join(parts) != [])
      invariant forall k :: 0 <= k < i ==> components[k].source == source
      invariant |bytes| <= MAX_COMPONENT_BUNDLE_BYTES
    {
      var error: Option<BundleError>;
      ghost var before := parts;
      error, bytes, parts := AddComponent(components, i, components[i], parser, source, bytes, parts);
      if error.Some? {
        ComponentErrorOnly(components, parser, i, before, error.value);
        return Failed(error.value), parts;
      }
    }
    assert components[..|components|] == components;
    assert Framed(bytes);
    var final := ParseComplete(bytes, parser);
    if final.Err? {
      forall ps ensures !Admissible(components, parser, ps) { WholeFails(components, parser, parts, ps); }
      WholeFault(components, parser, parts, final.error);
      return Failed(InvalidBundle(final.error)), parts;
    }
    assert FramedAs(bytes, Join(parts)) && final.value == |Join(parts)|;
    assert Admissible(components, parser, parts);
    return Assembled(source, bytes, final.value), parts;
  }

  lemma WholeFault(components: seq<Component>, parser: Parser, parts: seq<seq<seq<byte>>>, error: FrameError)
    requires PartsOf(components, parts) && Join(parts) != [] && FramedAs(Concat(Join(parts)), Join(parts))
    requires Incomplete(Concat(Join(parts)), parser, error)
    ensures BundleFault(components, parser, InvalidBundle(error))
  {
    hide PartsOf, Join, FailsAt;
    FirstMessage(Join(parts), Concat(Join(parts)));
    assert Framed(Concat(Join(parts)));
  }

  lemma ComponentErrorOnly(components: seq<Component>, parser: Parser, i: nat, parts: seq<seq<seq<byte>>>, error: BundleError)
    requires FaultAt(components, parser, i, parts, error)
    ensures BundleFault(components, parser, error)
  {
    hide PartsOf, BulletinFault, Incomplete, CarriedBy;
  }

  lemma NoPartsParse(parser: Parser)
    ensures PartsParse(parser, [])
  {
  }
}
