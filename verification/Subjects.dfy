/** Owner segments and daily session keys of long tasks. */
module Subjects {
  import opened Wrappers
  import Text
  import Utf8
  import Base64Url

  const PREFIX := "b64_"

  datatype KeyError = BadEncoding | BadKey

  predicate StartsWith(s: string, p: string) {
    |p| <= |s| && s[..|p|] == p
  }

  predicate IsSafe(ownerId: string) {
    ownerId != [] && forall i :: 0 <= i < |ownerId| ==> Base64Url.IsSafeChar(ownerId[i])
  }

  lemma DashesCons(c: char, s: string)
    ensures WithoutDashes([c] + s) == (if c == '-' then [] else [c]) + WithoutDashes(s)
  {
    assert ([c] + s)[1..] == s;
  }

  /** Dashes go and everything else stays, in order: text is taken apart at its dashes and joined without them. */
  lemma {:induction false} DashGoes(a: string, b: string)
    requires '-' !in a
    ensures WithoutDashes(a) == a
    ensures WithoutDashes(a + ("-" + b)) == a + WithoutDashes(b)
  {
    if a == [] {
      DashesCons('-', b);
      assert a + ("-" + b) == ['-'] + b && [] + WithoutDashes(b) == WithoutDashes(b);
    } else {
      var rest := a[1..];
      DashGoes(rest, b);
      DashesCons(a[0], rest + ("-" + b));
      assert a == [a[0]] + rest;
      Text.Associates([a[0]], rest, "-" + b);
      Text.Associates([a[0]], rest, WithoutDashes(b));
    }
  }

  /** An ISO date gives the compact one, and the key of that day reads back. */
  lemma IsoDateKey(ownerId: string, year: string, month: string, day: string)
    requires '-' !in year && '-' !in month && '-' !in day && |year| == 4 && |month| == |day| == 2
    ensures ParseSessionKey(SessionKeyFor(ownerId, year + ("-" + (month + ("-" + day))))) ==
      Ok((ownerId, year + (month + day)))
  {
    DashGoes(year, month + ("-" + day));
    DashGoes(month, day);
    SessionKeyRoundTrip(ownerId, year + ("-" + (month + ("-" + day))));
  }

  function Escaped(ownerId: string): (segment: string) {
    PREFIX + Base64Url.RStrip(Base64Url.Encode(Utf8.Encode(ownerId)))
  }

  function SafeOwnerKey(ownerId: string): (s: string) {
    if IsSafe(ownerId) && !StartsWith(ownerId, PREFIX) then ownerId else Escaped(ownerId)
  }

  function OwnerIdFromSafeKey(segment: string): (r: Result<string, KeyError>) {
    if !StartsWith(segment, PREFIX) then Ok(segment)
    else
      var encoded := segment[|PREFIX|..];
      match Base64Url.Decode(encoded + Base64Url.Padding(|encoded|))
      case None => Err(BadEncoding)
      case Some(bytes) => match Utf8.Decode(bytes)
        case None => Err(BadEncoding)
        case Some(text) => Ok(text)
  }

  /** `str.replace("-", "")`. A `date` argument arrives here as its `%Y%m%d` text. */
  function WithoutDashes(s: string): (r: string)
    ensures '-' !in r
    ensures '-' !in s ==> r == s
  {
    if s == [] then [] else (if s[0] == '-' then [] else [s[0]]) + WithoutDashes(s[1..])
  }

  function SessionKeyFor(ownerId: string, localDate: string): (s: string) {
    "e." + (SafeOwnerKey(ownerId) + "." + WithoutDashes(localDate))
  }

  /** The text before and after the first dot, `None` when there is no dot. */
  function Partition(s: string): (r: Option<(string, string)>)
    ensures r.Some? ==> s == r.value.0 + "." + r.value.1 && '.' !in r.value.0
    ensures r.None? ==> '.' !in s
  {
    if s == [] then None
    else if s[0] == '.' then Some(([], s[1..]))
    else match Partition(s[1..])
      case None => None
      case Some((head, tail)) => Some(([s[0]] + head, tail))
  }

  /** `session_key.split(".", 2)` unpacked into three names, then checked. */
  function ParseSessionKey(key: string): (r: Result<(string, string), KeyError>) {
    match Partition(key)
    case None => Err(BadKey)
    case Some((prefix, rest)) => match Partition(rest)
      case None => Err(BadKey)
      case Some((segment, yyyymmdd)) =>
        if prefix != "e" || segment == [] || |yyyymmdd| != 8 then Err(BadKey)
        else match OwnerIdFromSafeKey(segment)
          case Err(e) => Err(e)
          case Ok(owner) => Ok((owner, yyyymmdd))
  }

  /** The key is an `e`, a segment and eight characters, with dots between them and none inside the segment. */
  predicate KeyParts(key: string, segment: string, day: string) {
    key == "e" + "." + (segment + "." + day) && segment != [] && '.' !in segment && |day| == 8
  }

  /** What parsing makes of any text: its one owner and day; an unreadable segment; or no key at all. */
  lemma ParseIff(key: string)
    ensures match ParseSessionKey(key)
      case Ok((owner, day)) =>
        exists segment :: KeyParts(key, segment, day) && OwnerIdFromSafeKey(segment) == Ok(owner)
      case Err(BadEncoding) =>
        exists segment, day :: KeyParts(key, segment, day) && OwnerIdFromSafeKey(segment) == Err(BadEncoding)
      case Err(BadKey) => forall segment, day :: !KeyParts(key, segment, day)
  {
    forall segment, day | KeyParts(key, segment, day)
      ensures Partition(key) == Some(("e", segment + "." + day))
      ensures Partition(segment + "." + day) == Some((segment, day))
    {
      PartitionAtFirstDot("e", segment + "." + day);
      PartitionAtFirstDot(segment, day);
    }
    if Partition(key).Some? && Partition(Partition(key).value.1).Some? {
      var (prefix, rest) := Partition(key).value;
      var (segment, day) := Partition(rest).value;
      assert prefix == "e" && segment != [] && |day| == 8 ==> KeyParts(key, segment, day);
    }
  }

  lemma SafeOwnerKeyIsSegment(ownerId: string)
    ensures IsSafe(SafeOwnerKey(ownerId)) && '.' !in SafeOwnerKey(ownerId)
  {
    Base64Url.PaddingRestored(Utf8.Encode(ownerId));
  }

  /** Every owner id survives the trip, the empty one and those that already start with the escape included. */
  lemma OwnerIdRoundTrip(ownerId: string)
    ensures OwnerIdFromSafeKey(SafeOwnerKey(ownerId)) == Ok(ownerId)
  {
    EscapedReads(ownerId);
  }

  lemma EscapedReads(ownerId: string)
    ensures StartsWith(Escaped(ownerId), PREFIX) && OwnerIdFromSafeKey(Escaped(ownerId)) == Ok(ownerId)
  {
    var bytes := Utf8.Encode(ownerId);
    var t := Base64Url.RStrip(Base64Url.Encode(bytes));
    PaddedDecodes(bytes);
    Utf8.DecodeIffEncode(bytes, ownerId);
    assert (PREFIX + t)[|PREFIX|..] == t && (PREFIX + t)[..|PREFIX|] == PREFIX;
  }

  /** The unpadded base64url text of any bytes decodes to them once its padding is put back. */
  lemma PaddedDecodes(bytes: seq<Utf8.Byte>)
    ensures var t := Base64Url.RStrip(Base64Url.Encode(bytes));
      Base64Url.Decode(t + Base64Url.Padding(|t|)) == Some(bytes)
  {
    var t := Base64Url.RStrip(Base64Url.Encode(bytes));
    var padded := t + Base64Url.Padding(|t|);
    Base64Url.PaddingRestored(bytes);
    Base64Url.ScanInvertsEncode(bytes);
    assert forall i :: 0 <= i < |padded| ==> padded[i] < 128 as char;
  }

  lemma {:induction false} PartitionAtFirstDot(head: string, tail: string)
    requires '.' !in head
    ensures Partition(head + "." + tail) == Some((head, tail))
  {
    var s := head + "." + tail;
    if head == [] {
      assert s[1..] == tail;
    } else {
      PartitionAtFirstDot(head[1..], tail);
      assert s[1..] == head[1..] + "." + tail;
      assert head == [head[0]] + head[1..];
    }
  }

  lemma SessionKeyParts(ownerId: string, localDate: string)
    ensures var key := SessionKeyFor(ownerId, localDate);
      var rest := SafeOwnerKey(ownerId) + "." + WithoutDashes(localDate);
      Partition(key) == Some(("e", rest)) && Partition(rest) == Some((SafeOwnerKey(ownerId), WithoutDashes(localDate)))
  {
    SafeOwnerKeyIsSegment(ownerId);
    var rest := SafeOwnerKey(ownerId) + "." + WithoutDashes(localDate);
    assert "e" + "." == "e.";
    PartitionAtFirstDot("e", rest);
    PartitionAtFirstDot(SafeOwnerKey(ownerId), WithoutDashes(localDate));
  }

  /** Parsing returns the pair that was printed exactly when the date has eight characters. */
  lemma SessionKeyRoundTrip(ownerId: string, localDate: string)
    ensures ParseSessionKey(SessionKeyFor(ownerId, localDate)) ==
      if |WithoutDashes(localDate)| == 8 then Ok((ownerId, WithoutDashes(localDate))) else Err(BadKey)
  {
    SessionKeyParts(ownerId, localDate);
    SafeOwnerKeyIsSegment(ownerId);
    OwnerIdRoundTrip(ownerId);
  }

  /** Whatever the dates look like, two different (owner, day) pairs never share a key. */
  lemma SessionKeysDistinct(o1: string, d1: string, o2: string, d2: string)
    ensures SessionKeyFor(o1, d1) == SessionKeyFor(o2, d2) <==> o1 == o2 && WithoutDashes(d1) == WithoutDashes(d2)
  {
    SessionKeyParts(o1, d1);
    SessionKeyParts(o2, d2);
    OwnerIdRoundTrip(o1);
    OwnerIdRoundTrip(o2);
  }

  /** A segment that reads as `o` is the one printed for `o`: plain if it can be, escaped without slack if not. */
  predicate Printed(segment: string, o: string) {
    if StartsWith(segment, PREFIX) then
      Base64Url.Canonical(segment[|PREFIX|..]) && !(IsSafe(o) && !StartsWith(o, PREFIX))
    else IsSafe(segment)
  }

  /** Bytes read from `t` are encoded as `t` exactly when `t` is canonical. */
  lemma ReencodesIffCanonical(t: string, bytes: seq<Utf8.Byte>)
    requires Base64Url.Decode(t + Base64Url.Padding(|t|)) == Some(bytes)
    ensures Base64Url.RStrip(Base64Url.Encode(bytes)) == t <==> Base64Url.Canonical(t)
  {
    Base64Url.EncodingIsCanonical(bytes);
    if Base64Url.Canonical(t) {
      var b := Base64Url.CanonicalIsEncoding(t);
      PaddedDecodes(b);
    }
  }

  /**
   * The reader takes more segments than the printer makes. One that it reads as `o` is the segment of `o`
   * exactly when it is `Printed`.
   */
  lemma PrintedIff(segment: string, o: string)
    requires OwnerIdFromSafeKey(segment) == Ok(o)
    ensures SafeOwnerKey(o) == segment <==> Printed(segment, o)
  {
    if StartsWith(segment, PREFIX) {
      var t := segment[|PREFIX|..];
      var bytes := Base64Url.Decode(t + Base64Url.Padding(|t|)).value;
      Utf8.DecodeIffEncode(bytes, o);
      ReencodesIffCanonical(t, bytes);
      assert segment == PREFIX + t;
    } else if !IsSafe(segment) {
      assert StartsWith(SafeOwnerKey(segment), PREFIX);
    }
  }

  /** The segments printed for some owner are those that read back and are `Printed`. */
  lemma SegmentsOfOwners(segment: string)
    ensures (exists o :: SafeOwnerKey(o) == segment) <==>
      OwnerIdFromSafeKey(segment).Ok? && Printed(segment, OwnerIdFromSafeKey(segment).value)
  {
    if o :| SafeOwnerKey(o) == segment {
      OwnerIdRoundTrip(o);
      PrintedIff(segment, o);
    }
    if OwnerIdFromSafeKey(segment).Ok? {
      PrintedIff(segment, OwnerIdFromSafeKey(segment).value);
    }
  }

  /** Every plain name has a second segment, its escaped form: it reads alike and is not what is printed. */
  lemma EscapedPlainName(ownerId: string)
    requires IsSafe(ownerId) && !StartsWith(ownerId, PREFIX)
    ensures OwnerIdFromSafeKey(Escaped(ownerId)) == Ok(ownerId) && Escaped(ownerId) != SafeOwnerKey(ownerId)
  {
    EscapedReads(ownerId);
  }
}
