/** The byte stream hashed for the client artifacts, and why it identifies them. */
module ArtifactDigest {
  import opened Wrappers

  type Byte = n: nat | n < 256
  type Bytes = seq<Byte>

  datatype File = File(path: Bytes, content: Bytes)
  datatype Digest = Digest(fileCount: nat, hash: string)

  const COLON: Byte := 58
  const ZERO: Byte := 48

  /** Decimal digits, most significant first. */
  function Decimal(n: nat): Bytes {
    if n < 10 then [ZERO + n] else Decimal(n / 10) + [ZERO + n % 10]
  }

  /** Length, colon, then the bytes; nothing separates one frame from the next. */
  function Framed(bytes: Bytes): Bytes {
    Decimal(|bytes|) + [COLON] + bytes
  }

  function Stream(files: seq<File>): Bytes {
    if files == [] then []
    else Framed(files[0].path) + Framed(files[0].content) + Stream(files[1..])
  }

  method Update(fed: Bytes, bytes: Bytes) returns (longer: Bytes)
    ensures longer == fed + Framed(bytes)
  {
    longer := fed + (Decimal(|bytes|) + [COLON]);
    longer := longer + bytes;
  }

  lemma FramesJoin(fed: Bytes, path: Bytes, content: Bytes, rest: Bytes)
    ensures fed + path + content + rest == fed + (path + content + rest)
  {
  }

  /** `hash` stands for the digest function over the bytes fed to it. */
  method ClientArtifactDigest(files: seq<File>, hash: Bytes -> string) returns (digest: Option<Digest>)
    ensures digest == if files == [] then None else Some(Digest(|files|, hash(Stream(files))))
  {
    if files == [] {
      return None;
    }
    var fed: Bytes := [];
    for i := 0 to |files|
      invariant fed + Stream(files[i..]) == Stream(files)
    {
      assert files[i..][0] == files[i] && files[i..][1..] == files[i + 1..];
      ghost var before, rest := fed, Stream(files[i + 1..]);
      fed := Update(fed, files[i].path);
      fed := Update(fed, files[i].content);
      FramesJoin(before, Framed(files[i].path), Framed(files[i].content), rest);
    }
    assert files[|files|..] == [] && fed == fed + Stream(files[|files|..]);
    return Some(Digest(|files|, hash(fed)));
  }

  // ----- reading the stream back ------------------------------------------------------

  function ReadLength(s: Bytes, value: nat): Option<(nat, Bytes)> {
    if s == [] then None
    else if s[0] == COLON then Some((value, s[1..]))
    else if ZERO <= s[0] < ZERO + 10 then ReadLength(s[1..], value * 10 + (s[0] - ZERO))
    else None
  }

  function ReadFrame(s: Bytes): (r: Option<(Bytes, Bytes)>)
    ensures r.Some? ==> |r.value.1| <= |s|
  {
    var length := ReadLength(s, 0);
    if length.None? || |length.value.1| < length.value.0 then None
    else
      LengthConsumes(s, 0);
      Some((length.value.1[..length.value.0], length.value.1[length.value.0..]))
  }

  lemma {:induction false} LengthConsumes(s: Bytes, value: nat)
    ensures ReadLength(s, value).Some? ==> |ReadLength(s, value).value.1| < |s|
    decreases |s|
  {
    if s != [] && s[0] != COLON && ZERO <= s[0] < ZERO + 10 {
      LengthConsumes(s[1..], value * 10 + (s[0] - ZERO));
    }
  }

  function ReadFiles(s: Bytes): Option<seq<File>>
    decreases |s|
  {
    if s == [] then Some([])
    else
      LengthConsumes(s, 0);
      var path := ReadFrame(s);
      if path.None? then None
      else
        var content := ReadFrame(path.value.1);
        if content.None? then None
        else
          var rest := ReadFiles(content.value.1);
          if rest.None? then None else Some([File(path.value.0, content.value.0)] + rest.value)
  }

  lemma {:induction false} ReadDecimal(n: nat, tail: Bytes)
    ensures ReadLength(Decimal(n) + tail, 0) == ReadLength(tail, n)
    decreases n
  {
    if n < 10 {
      assert (Decimal(n) + tail)[1..] == tail;
    } else {
      var last := [ZERO + n % 10];
      assert Decimal(n) + tail == Decimal(n / 10) + (last + tail);
      ReadDecimal(n / 10, last + tail);
      assert (last + tail)[1..] == tail;
    }
  }

  lemma ReadFramed(bytes: Bytes, tail: Bytes)
    ensures ReadFrame(Framed(bytes) + tail) == Some((bytes, tail))
  {
    var rest := [COLON] + bytes + tail;
    assert Framed(bytes) + tail == Decimal(|bytes|) + rest;
    ReadDecimal(|bytes|, rest);
    assert rest[1..] == bytes + tail;
  }

  /** The stream can be read back: frames without separators lose nothing. */
  lemma {:induction false} StreamRoundTrip(files: seq<File>)
    ensures ReadFiles(Stream(files)) == Some(files)
    decreases |files|
  {
    if files != [] {
      var path, content, rest := files[0].path, files[0].content, Stream(files[1..]);
      assert Stream(files) == Framed(path) + (Framed(content) + rest);
      assert |Framed(path)| > 0;
      ReadFramed(path, Framed(content) + rest);
      ReadFramed(content, rest);
      StreamRoundTrip(files[1..]);
      assert [files[0]] + files[1..] == files;
    }
  }

  /** Equal digests mean equal artifacts, path by path and byte by byte, unless the hash
      itself collides on the two streams. */
  lemma DigestIdentifiesArtifacts(a: seq<File>, b: seq<File>, hash: Bytes -> string)
    requires hash(Stream(a)) == hash(Stream(b)) ==> Stream(a) == Stream(b)
    ensures Digest(|a|, hash(Stream(a))) == Digest(|b|, hash(Stream(b))) <==> a == b
  {
    StreamRoundTrip(a);
    StreamRoundTrip(b);
  }

  /** The number that decimal digits denote. */
  ghost function Value(digits: Bytes): int {
    if digits == [] then 0 else Value(digits[..|digits| - 1]) * 10 + (digits[|digits| - 1] as int - 48)
  }

  /** Lengths are written in decimal without leading zeros. */
  lemma {:induction false} DecimalExact(n: nat)
    ensures forall d :: d in Decimal(n) ==> 48 <= d < 58
    ensures Value(Decimal(n)) == n
    ensures Decimal(n) != [] && (n > 0 ==> Decimal(n)[0] != 48) && (n == 0 ==> |Decimal(n)| == 1)
    decreases n
  {
    if n >= 10 {
      DecimalExact(n / 10);
      var digits := Decimal(n);
      assert digits[..|digits| - 1] == Decimal(n / 10) && digits[|digits| - 1] == 48 + n % 10;
    } else {
      assert Decimal(n)[..0] == [];
    }
  }

  lemma {:induction false} StreamAppend(files: seq<File>, last: File)
    ensures Stream(files + [last]) == Stream(files) + (Framed(last.path) + Framed(last.content))
    decreases |files|
  {
    var tail := Framed(last.path) + Framed(last.content);
    if files == [] {
      assert files + [last] == [last] && [last][1..] == [];
      assert Stream([last]) == tail + Stream([]);
    } else {
      assert (files + [last])[0] == files[0] && (files + [last])[1..] == files[1..] + [last];
      StreamAppend(files[1..], last);
      var first := Framed(files[0].path) + Framed(files[0].content);
      assert first + (Stream(files[1..]) + tail) == first + Stream(files[1..]) + tail;
    }
  }

  /** The stream is the files in order: length of the path, colon, path, length of the content, colon,
      content. */
  lemma StreamInOrder(files: seq<File>, last: File)
    ensures Stream(files + [last]) ==
            Stream(files)
            + ((Decimal(|last.path|) + [58] + last.path) + (Decimal(|last.content|) + [58] + last.content))
  {
    StreamAppend(files, last);
  }
}
