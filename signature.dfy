/** Telling a remote archive's kind from its first bytes: the ranged request
    asks for bytes 0-7, and the answer is classified by the zip and 7z magic
    numbers it starts with. */
module Signature {
  import opened Common

  datatype FileType = Zip | SevenZip | Other | Error

  /** How many bytes of the response are read. */
  const SigLength: nat := 8

  /** The three zip signatures: local file header, end of central
      directory, spanning marker ("PK" followed by 3 4, 5 6 or 7 8). */
  const ZipMagics: seq<seq<byte>> := [[0x50, 0x4B, 0x03, 0x04], [0x50, 0x4B, 0x05, 0x06], [0x50, 0x4B, 0x07, 0x08]]

  /** The 7z signature "7z" 0xBC 0xAF 0x27 0x1C. */
  const SevenZipMagic: seq<byte> := [0x37, 0x7A, 0xBC, 0xAF, 0x27, 0x1C]

  /** `bytes.startswith`. */
  predicate StartsWith(s: seq<byte>, prefix: seq<byte>)
  {
    |prefix| <= |s| && s[..|prefix|] == prefix
  }

  /** `resp.read(8)`: at most the first eight bytes of the response body. */
  function ReadSig(body: seq<byte>): (sig: seq<byte>)
    ensures |sig| <= SigLength && StartsWith(body, sig)
    ensures |body| >= SigLength ==> |sig| == SigLength
  {
    if |body| <= SigLength then body else body[..SigLength]
  }

  /** `detect_remote_filetype`: `response` is the body the server sends, or
      `None` when the request, the read or anything else in between raises. */
  function Classify(response: Option<seq<byte>>): (r: FileType)
    ensures r == Error <==> response.None?
    ensures r == Zip ==> |response.value| >= 4 && response.value[..2] == [0x50, 0x4B]
  {
    match response
    case None => Error
    case Some(body) =>
      var sig := ReadSig(body);
      if StartsWith(sig, ZipMagics[0]) || StartsWith(sig, ZipMagics[1]) || StartsWith(sig, ZipMagics[2]) then Zip
      else if StartsWith(sig, SevenZipMagic) then SevenZip
      else Other
  }

  /** A magic number no longer than the bytes read is at the start of
      those bytes exactly when it is at the start of the whole body. */
  lemma SigPrefix(body: seq<byte>, magic: seq<byte>)
    requires |magic| <= SigLength
    ensures StartsWith(ReadSig(body), magic) <==> StartsWith(body, magic)
  {
    var sig := ReadSig(body);
    if StartsWith(body, magic) && |body| > SigLength {
      assert sig[..|magic|] == body[..|magic|];
    }
  }

  /** The classification reading only eight bytes is the one the whole body
      calls for: zip when the body starts with one of the zip signatures,
      7z when it starts with the 7z one, and "other" otherwise; "error"
      exactly when the request failed. No body is both zip and 7z, so the
      order of the checks does not matter. */
  lemma ClassifySpec(response: Option<seq<byte>>)
    ensures Classify(response) == Error <==> response.None?
    ensures Classify(response) == Zip <==>
      response.Some? && exists m :: m in ZipMagics && StartsWith(response.value, m)
    ensures Classify(response) == SevenZip <==>
      response.Some? && StartsWith(response.value, SevenZipMagic)
  {
    if response.Some? {
      var body := response.value;
      SigPrefix(body, ZipMagics[0]);
      SigPrefix(body, ZipMagics[1]);
      SigPrefix(body, ZipMagics[2]);
      SigPrefix(body, SevenZipMagic);
      if StartsWith(body, SevenZipMagic) {
        assert body[0] == SevenZipMagic[0];
      }
    }
  }

  /** Only the first six bytes matter: bodies that agree on them are
      classified alike. */
  lemma ClassifyFirstSix(a: seq<byte>, b: seq<byte>)
    requires |a| >= 6 && |b| >= 6 && a[..6] == b[..6]
    ensures Classify(Some(a)) == Classify(Some(b))
  {
    ClassifySpec(Some(a));
    ClassifySpec(Some(b));
    forall m | m in ZipMagics + [SevenZipMagic]
      ensures StartsWith(a, m) <==> StartsWith(b, m)
    {
      assert a[..|m|] == a[..6][..|m|] && b[..|m|] == b[..6][..|m|];
    }
  }
}
