/** The DER certificate chain in a signed image, and the hash taken of its root. */
module CertChain {
  import opened Bytes
  import opened Wrappers

  const DER_SEQUENCE_TAG: byte := 0x30
  const USIZE: nat := 0x1_0000_0000_0000_0000
  const SHA256_RSA_OID: seq<byte> := [0x2a, 0x86, 0x48, 0x86, 0xf7, 0x0d, 0x01, 0x01, 0x0b]

  // ----- Lengths -----

  /** Content bytes, and the bytes of tag and length before them. */
  datatype Length = Length(content: nat, header: nat)

  function BigEndian(s: seq<byte>): (n: nat)
    ensures n < Pow256(|s|)
  {
    if s == [] then 0 else BigEndian(s[..|s| - 1]) * 0x100 + s[|s| - 1]
  }

  function BigEndianBytes(n: nat, k: nat): (s: seq<byte>)
    ensures |s| == k
  {
    if k == 0 then [] else BigEndianBytes(n / 0x100, k - 1) + [n % 0x100]
  }

  lemma {:induction false} BigEndianRoundTrip(n: nat, k: nat)
    requires n < Pow256(k)
    ensures BigEndian(BigEndianBytes(n, k)) == n
  {
    if k > 0 {
      BigEndianRoundTrip(n / 0x100, k - 1);
      var s := BigEndianBytes(n, k);
      assert s[..k - 1] == BigEndianBytes(n / 0x100, k - 1);
    }
  }

  lemma {:induction false} BigEndianInverts(s: seq<byte>)
    ensures BigEndianBytes(BigEndian(s), |s|) == s
  {
    if s != [] {
      var init := s[..|s| - 1];
      BigEndianInverts(init);
      assert BigEndian(s) / 0x100 == BigEndian(init);
      assert s == init + [s[|s| - 1]];
    }
  }

  /** The length at `offset`, by the definite forms of section 8.1.3 of ITU-T X.690 with at most four bytes. */
  function LengthAt(data: seq<byte>, offset: nat): Option<Length> {
    if offset >= |data| then None
    else if data[offset] < 0x80 then Some(Length(data[offset], 2))
    else
      var n := data[offset] - 0x80;
      if n == 0 || n > 4 || offset + 1 + n > |data| then None
      else Some(Length(BigEndian(data[offset + 1..offset + 1 + n]), 2 + n))
  }

  /** The checked shift and addition on 64-bit words never fail: four bytes always fit. */
  method DerReadLength(data: seq<byte>, offset: nat) returns (r: Option<Length>)
    ensures r == LengthAt(data, offset)
  {
    if offset >= |data| {
      return None;
    }
    var first: int := data[offset];
    if first < 0x80 {
      return Some(Length(first, 2));
    }
    if first == 0x80 {
      return None;
    }
    var n: nat := first % 0x80;
    assert n == first - 0x80;
    if n > 4 || offset + 1 + n > |data| {
      return None;
    }
    ghost var digits := data[offset + 1..offset + 1 + n];
    var length: nat := 0;
    for i := 0 to n
      invariant length == BigEndian(digits[..i])
    {
      FourBytesFit(digits[..i]);
      assert digits[..i + 1][..i] == digits[..i];
      length := length * 0x100 % USIZE;
      if length + data[offset + 1 + i] >= USIZE {
        return None;
      }
      length := length + data[offset + 1 + i];
    }
    assert digits[..n] == digits;
    r := Some(Length(length, 2 + n));
  }

  lemma FourBytesFit(s: seq<byte>)
    requires |s| < 4
    ensures BigEndian(s) < 0x100_0000
  {
    assert Pow256(0) == 1 && Pow256(1) == 0x100 && Pow256(2) == 0x1_0000 && Pow256(3) == 0x100_0000;
  }

  // ----- Elements -----

  datatype Form = Short | Long(octets: nat)

  /** A sequence with its content and the form its length is written in; not necessarily the shortest. */
  datatype Element = Element(content: seq<byte>, form: Form)

  predicate ValidForm(n: nat, form: Form) {
    match form
    case Short => n < 0x80
    case Long(k) => 1 <= k <= 4 && n < Pow256(k)
  }

  function LengthBytes(n: nat, form: Form): seq<byte>
    requires ValidForm(n, form)
  {
    match form
    case Short => [n]
    case Long(k) => [0x80 + k] + BigEndianBytes(n, k)
  }

  predicate ValidElement(e: Element) {
    ValidForm(|e.content|, e.form)
  }

  function EncodeElement(e: Element): (s: seq<byte>)
    requires ValidElement(e)
    ensures |s| > 1 && s[0] == 0x30
  {
    [DER_SEQUENCE_TAG] + LengthBytes(|e.content|, e.form) + e.content
  }

  predicate AllValid(es: seq<Element>) {
    es == [] || (ValidElement(es[0]) && AllValid(es[1..]))
  }

  function Encodings(es: seq<Element>): (cs: seq<seq<byte>>)
    requires AllValid(es)
    ensures |cs| == |es|
  {
    if es == [] then [] else [EncodeElement(es[0])] + Encodings(es[1..])
  }

  /** The decoder inverts both length forms, whatever follows. */
  lemma LengthInvertsForms(n: nat, form: Form, rest: seq<byte>)
    requires ValidForm(n, form)
    ensures LengthAt([DER_SEQUENCE_TAG] + LengthBytes(n, form) + rest, 1) ==
              Some(Length(n, 1 + |LengthBytes(n, form)|))
  {
    var data := [DER_SEQUENCE_TAG] + LengthBytes(n, form) + rest;
    if form.Long? {
      var k := form.octets;
      assert data[2..2 + k] == BigEndianBytes(n, k);
      BigEndianRoundTrip(n, k);
    }
  }

  /** And every length it accepts is written in one of them. */
  lemma FormsCoverLengths(data: seq<byte>) returns (form: Form)
    requires data != [] && data[0] == DER_SEQUENCE_TAG && LengthAt(data, 1).Some?
    ensures var l := LengthAt(data, 1).value;
            && ValidForm(l.content, form)
            && l.header <= |data|
            && data[..l.header] == [DER_SEQUENCE_TAG] + LengthBytes(l.content, form)
  {
    var l := LengthAt(data, 1).value;
    if data[1] < 0x80 {
      form := Short;
    } else {
      var k := data[1] - 0x80;
      form := Long(k);
      BigEndianInverts(data[2..2 + k]);
    }
  }

  // ----- The walk -----

  predicate WholeElement(data: seq<byte>, l: Length) {
    l.header + l.content <= |data|
  }

  /** The elements at the front of the data; none at all if a length is broken, however many came before. */
  function Walk(data: seq<byte>): Option<seq<seq<byte>>>
    decreases |data|
  {
    if data == [] || data[0] != DER_SEQUENCE_TAG then Some([])
    else if LengthAt(data, 1).None? then None
    else
      var l := LengthAt(data, 1).value;
      if !WholeElement(data, l) then Some([])
      else Prefixed(data[..l.header + l.content], Walk(data[l.header + l.content..]))
  }

  function Prefixed(c: seq<byte>, cs: Option<seq<seq<byte>>>): Option<seq<seq<byte>>> {
    if cs.None? then None else Some([c] + cs.value)
  }

  /** Where the walk stops and keeps what it found. */
  predicate Stops(tail: seq<byte>) {
    || tail == []
    || tail[0] != DER_SEQUENCE_TAG
    || (LengthAt(tail, 1).Some? && !WholeElement(tail, LengthAt(tail, 1).value))
  }

  /** Where it gives up and drops what it found. */
  predicate Breaks(tail: seq<byte>) {
    tail != [] && tail[0] == DER_SEQUENCE_TAG && LengthAt(tail, 1).None?
  }

  lemma WalkOne(e: Element, rest: seq<byte>)
    requires ValidElement(e)
    ensures Walk(EncodeElement(e) + rest) == Prefixed(EncodeElement(e), Walk(rest))
  {
    var h := [DER_SEQUENCE_TAG] + LengthBytes(|e.content|, e.form);
    var data := EncodeElement(e) + rest;
    Assoc(h, e.content, rest);
    LengthInvertsForms(|e.content|, e.form, e.content + rest);
    Slices(EncodeElement(e), rest, []);
  }

  /**
   * The walk is exact.  Behind any list of elements with definite lengths it finds precisely that
   * list when the data ends or continues with anything but a broken length; a broken length behind
   * them makes it find nothing.
   */
  lemma {:induction false} WalkIsExact(es: seq<Element>, tail: seq<byte>)
    requires AllValid(es)
    ensures Stops(tail) ==> Walk(Concat(Encodings(es)) + tail) == Some(Encodings(es))
    ensures Breaks(tail) ==> Walk(Concat(Encodings(es)) + tail) == None
  {
    if es == [] {
      assert [] + tail == tail;
    } else {
      var c, cs := EncodeElement(es[0]), Encodings(es[1..]);
      assert Encodings(es)[1..] == cs;
      Assoc(c, Concat(cs), tail);
      WalkOne(es[0], Concat(cs) + tail);
      WalkIsExact(es[1..], tail);
    }
  }

  lemma FrontElement(data: seq<byte>) returns (e: Element, rest: seq<byte>)
    requires !Stops(data) && !Breaks(data)
    ensures ValidElement(e) && data == EncodeElement(e) + rest && |rest| < |data|
  {
    var l := LengthAt(data, 1).value;
    var end := l.header + l.content;
    var form := FormsCoverLengths(data);
    e, rest := Element(data[l.header..end], form), data[end..];
    assert EncodeElement(e) == data[..l.header] + data[l.header..end];
    ThreeParts(data, l.header, end);
  }

  lemma ThreeParts(s: seq<byte>, i: nat, j: nat)
    requires i <= j <= |s|
    ensures s[..i] + s[i..j] + s[j..] == s && |s[i..j]| == j - i && |s[j..]| == |s| - j
  {
  }

  lemma EncodingsCons(e: Element, es: seq<Element>, tail: seq<byte>)
    requires ValidElement(e) && AllValid(es)
    ensures AllValid([e] + es) && Encodings([e] + es) == [EncodeElement(e)] + Encodings(es)
    ensures Concat(Encodings([e] + es)) + tail == EncodeElement(e) + (Concat(Encodings(es)) + tail)
  {
    assert ([e] + es)[1..] == es;
    assert Encodings([e] + es)[1..] == Encodings(es);
    Assoc(EncodeElement(e), Concat(Encodings(es)), tail);
  }

  /** Conversely, all data is a list of elements and a rest at which the walk stops or breaks. */
  lemma {:induction false} WalkCutsAll(data: seq<byte>) returns (es: seq<Element>, tail: seq<byte>)
    ensures AllValid(es) && data == Concat(Encodings(es)) + tail
    ensures Stops(tail) || Breaks(tail)
    ensures Walk(data) == if Stops(tail) then Some(Encodings(es)) else None
    decreases |data|
  {
    if Stops(data) || Breaks(data) {
      es, tail := [], data;
      assert [] + tail == tail;
    } else {
      var e, rest := FrontElement(data);
      es, tail := WalkCutsAll(rest);
      WalkOne(e, rest);
      EncodingsCons(e, es, tail);
      es := [e] + es;
    }
  }

  lemma LengthAtShift(data: seq<byte>, pos: nat)
    requires pos <= |data|
    ensures LengthAt(data, pos + 1) == LengthAt(data[pos..], 1)
  {
    if pos + 1 < |data| && data[pos + 1] >= 0x80 {
      var n := data[pos + 1] - 0x80;
      if pos + 2 + n <= |data| {
        assert data[pos + 2..pos + 2 + n] == data[pos..][2..2 + n];
      }
    }
  }

  // ----- The hash of the root -----

  datatype HashAlgorithm = Sha256 | Sha384

  type Digest = seq<byte> -> seq<byte>

  predicate Occurs(haystack: seq<byte>, needle: seq<byte>, i: int) {
    0 <= i <= |haystack| - |needle| && haystack[i..i + |needle|] == needle
  }

  predicate ContainsBytes(haystack: seq<byte>, needle: seq<byte>) {
    exists i | 0 <= i <= |haystack| - |needle| :: Occurs(haystack, needle, i)
  }

  function DetectHashAlgorithm(cert: seq<byte>): HashAlgorithm {
    if ContainsBytes(cert, SHA256_RSA_OID) then Sha256 else Sha384
  }

  function HashOf(cert: seq<byte>, sha256: Digest, sha384: Digest): (seq<byte>, HashAlgorithm) {
    match DetectHashAlgorithm(cert)
    case Sha256 => (sha256(cert), Sha256)
    case Sha384 => (sha384(cert), Sha384)
  }

  function Pkhash(data: seq<byte>, sha256: Digest, sha384: Digest): Option<(seq<byte>, HashAlgorithm)> {
    var certs := Walk(data);
    if certs.None? || certs.value == [] then None
    else
      var root := certs.value[|certs.value| - 1];
      if |root| < 100 || |root| > 10240 then None else Some(HashOf(root, sha256, sha384))
  }

  method ExtractPkhashFromCertChain(data: seq<byte>, sha256: Digest, sha384: Digest)
    returns (r: Option<(seq<byte>, HashAlgorithm)>)
    ensures r == Pkhash(data, sha256, sha384)
  {
    var certs: seq<seq<byte>> := [];
    var pos := 0;
    BehindNone(Walk(data));
    assert data[0..] == data;
    while pos < |data|
      invariant 0 <= pos <= |data|
      invariant Walk(data) == Behind(certs, Walk(data[pos..]))
    {
      if data[pos] != DER_SEQUENCE_TAG {
        break;
      }
      LengthAtShift(data, pos);
      var l := DerReadLength(data, pos + 1);
      if l.None? {
        return None;
      }
      var end := pos + l.value.header + l.value.content;
      if end > |data| {
        break;
      }
      NextElement(data, pos, end);
      BehindOne(certs, data[pos..end], Walk(data[end..]));
      certs := certs + [data[pos..end]];
      pos := end;
    }
    assert Walk(data[pos..]) == Some([]);
    assert certs + [] == certs;
    if certs == [] {
      return None;
    }
    var root := certs[|certs| - 1];
    if |root| < 100 || |root| > 10240 {
      return None;
    }
    match DetectHashAlgorithm(root) {
      case Sha256 => r := Some((sha256(root), Sha256));
      case Sha384 => r := Some((sha384(root), Sha384));
    }
  }

  function Behind(certs: seq<seq<byte>>, more: Option<seq<seq<byte>>>): Option<seq<seq<byte>>> {
    if more.None? then None else Some(certs + more.value)
  }

  lemma BehindNone(more: Option<seq<seq<byte>>>)
    ensures Behind([], more) == more
  {
    assert more.Some? ==> [] + more.value == more.value;
  }

  lemma NextElement(data: seq<byte>, pos: nat, end: nat)
    requires pos < end <= |data| && data[pos] == DER_SEQUENCE_TAG
    requires LengthAt(data[pos..], 1).Some?
    requires end == pos + LengthAt(data[pos..], 1).value.header + LengthAt(data[pos..], 1).value.content
    ensures Walk(data[pos..]) == Prefixed(data[pos..end], Walk(data[end..]))
  {
    assert data[pos..][..end - pos] == data[pos..end] && data[pos..][end - pos..] == data[end..];
  }

  lemma BehindOne(certs: seq<seq<byte>>, c: seq<byte>, more: Option<seq<seq<byte>>>)
    ensures Behind(certs, Prefixed(c, more)) == Behind(certs + [c], more)
  {
    if more.Some? {
      Assoc(certs, [c], more.value);
    }
  }

  /** The bytes of 1.2.840.113549.1.1.11, an RSA signature with SHA-256. */
  predicate OidAt(cert: seq<byte>, i: int) {
    0 <= i <= |cert| - 9 && cert[i..i + 9] == [0x2a, 0x86, 0x48, 0x86, 0xf7, 0x0d, 0x01, 0x01, 0x0b]
  }

  lemma OidOccurs(cert: seq<byte>)
    ensures DetectHashAlgorithm(cert) ==
              if exists i :: OidAt(cert, i) then Sha256 else Sha384
  {
    if i :| OidAt(cert, i) {
      assert Occurs(cert, SHA256_RSA_OID, i);
    }
    if i :| 0 <= i <= |cert| - |SHA256_RSA_OID| && Occurs(cert, SHA256_RSA_OID, i) {
      assert OidAt(cert, i);
    }
  }

  /**
   * The hash is that of the last element of the list, and is taken exactly when that element has 100
   * to 10240 bytes: with SHA-256 if the object identifier 1.2.840.113549.1.1.11 occurs in it, and with
   * SHA-384 else.
   */
  lemma RootIsHashed(es: seq<Element>, tail: seq<byte>, sha256: Digest, sha384: Digest)
    requires es != [] && AllValid(es) && Stops(tail)
    ensures var root := Encodings(es)[|es| - 1];
            Pkhash(Concat(Encodings(es)) + tail, sha256, sha384) ==
              if |root| < 100 || |root| > 10240 then None
              else if exists i :: OidAt(root, i) then Some((sha256(root), Sha256))
              else Some((sha384(root), Sha384))
  {
    WalkIsExact(es, tail);
    OidOccurs(Encodings(es)[|es| - 1]);
  }

  // ----- The search for a chain -----

  predicate Starts(data: seq<byte>, i: nat, sha256: Digest, sha384: Digest) {
    i <= |data| && Pkhash(data[i..], sha256, sha384).Some?
  }

  lemma {:induction false} LastElementFits(data: seq<byte>)
    requires Walk(data).Some? && Walk(data).value != []
    ensures var cs := Walk(data).value; |cs[|cs| - 1]| <= |data|
    decreases |data|
  {
    var l := LengthAt(data, 1).value;
    var rest := data[l.header + l.content..];
    if Walk(rest).value != [] {
      LastElementFits(rest);
    }
  }

  /**
   * Skipping all bytes but the sequence tag and stopping four bytes before the end misses nothing: the
   * result is that of the first position at or behind `start` where a chain yields a hash.
   */
  method FindAndExtractPkhash(data: seq<byte>, start: nat, sha256: Digest, sha384: Digest)
    returns (r: Option<(seq<byte>, HashAlgorithm)>)
    ensures r.None? ==> forall j: nat :: start <= j ==> !Starts(data, j, sha256, sha384)
    ensures r.Some? ==>
              exists i: nat ::
                && start <= i && Starts(data, i, sha256, sha384) && r == Pkhash(data[i..], sha256, sha384)
                && forall j: nat :: start <= j < i ==> !Starts(data, j, sha256, sha384)
  {
    var i := start;
    while i < |data| - 4
      invariant start <= i
      invariant forall j: nat :: start <= j < i ==> !Starts(data, j, sha256, sha384)
    {
      if data[i] == DER_SEQUENCE_TAG {
        r := ExtractPkhashFromCertChain(data[i..], sha256, sha384);
        if r.Some? {
          assert Starts(data, i, sha256, sha384);
          return;
        }
      }
      i := i + 1;
    }
    forall j: nat | i <= j ensures !Starts(data, j, sha256, sha384) {
      TooShort(data, j, sha256, sha384);
    }
    r := None;
  }

  lemma TooShort(data: seq<byte>, i: nat, sha256: Digest, sha384: Digest)
    ensures Starts(data, i, sha256, sha384) ==> i + 100 <= |data|
  {
    if Starts(data, i, sha256, sha384) {
      LastElementFits(data[i..]);
    }
  }
}
