/** The signature check `Has_Valid_GIF_Header`: a GIF starts with the five
    ASCII bytes "GIF87" or "GIF89" (GIF89a specification, section 17). */
module GifHeader {
  import opened GifBytes

  /** "GIF87" and "GIF89" as bytes. */
  const Gif87: seq<byte> := [0x47, 0x49, 0x46, 0x38, 0x37]
  const Gif89: seq<byte> := [0x47, 0x49, 0x46, 0x38, 0x39]

  /** `strncmp(a, b, n) == 0`: compare at most n bytes, stopping early where
      both strings end with a NUL byte. */
  function StrNEqual(a: seq<byte>, b: seq<byte>, n: nat): (eq: bool)
    requires n <= |a| && n <= |b|
    ensures (forall i :: 0 <= i < n ==> b[i] != 0) ==> (eq <==> a[..n] == b[..n])
  {
    if n == 0 then true
    else if a[0] != b[0] then false
    else if a[0] == 0 then true
    else
      var rest := StrNEqual(a[1..], b[1..], n - 1);
      assert a[..n] == [a[0]] + a[1..][..n - 1];
      assert b[..n] == [b[0]] + b[1..][..n - 1];
      rest
  }

  /** `Has_Valid_GIF_Header(data, len)`: at least five bytes, and the first
      five spell GIF87 or GIF89. */
  function HasValidGifHeader(data: seq<byte>): (ok: bool)
    ensures ok <==> |data| >= 5 && (data[..5] == Gif87 || data[..5] == Gif89)
  {
    if |data| < 5 then false
    else if StrNEqual(data, Gif87, 5) then true
    else if StrNEqual(data, Gif89, 5) then true
    else false
  }

  /** Only the five signature bytes matter: whatever follows them, a buffer is
      accepted exactly when its signature is. */
  lemma SignatureDecides(sig: seq<byte>, rest: seq<byte>)
    requires |sig| == 5
    ensures HasValidGifHeader(sig + rest) <==> sig == Gif87 || sig == Gif89
  {
    assert (sig + rest)[..5] == sig;
  }

  /** A buffer shorter than a signature is never a GIF. */
  lemma ShortBufferRejected(data: seq<byte>)
    requires |data| < 5
    ensures !HasValidGifHeader(data)
  {
  }
}
