/**
  The header helpers of `tool/tool.go`: the header-value membership test,
  the length check on `Sec-WebSocket-Key`, and the input of the accept-key
  hash. Header-key canonicalisation (`http.CanonicalHeaderKey`), SHA-1 and
  base64 are library code and enter as function parameters.
*/
module Tool {
  import opened Bytes

  /** The magic string of section 4.2.2 of RFC 6455. */
  const GUID: string := "258EAFA5-E914-47DA-95CA-C5AB0DC85B11"

  /** `http.Header`: each canonical key with its values, in the order received. */
  type HttpHeader = map<string, seq<string>>

  /** The loop of `IsWsHeader`: the values are scanned in order and the first equal one ends the search. */
  function HasValue(vs: seq<string>, v: string): bool {
    if |vs| == 0 then false
    else if vs[0] == v then true
    else HasValue(vs[1..], v)
  }

  /** The search succeeds exactly when some value is equal, character for character, to `v`. */
  lemma {:induction false} HasValueMeans(vs: seq<string>, v: string)
    ensures HasValue(vs, v) <==> exists i :: 0 <= i < |vs| && vs[i] == v
  {
    if |vs| > 0 {
      HasValueMeans(vs[1..], v);
      if vs[0] != v && exists i :: 0 <= i < |vs| && vs[i] == v {
        var i :| 0 <= i < |vs| && vs[i] == v;
        assert vs[1..][i - 1] == v;
      }
    }
  }

  /**
    `IsWsHeader`: the key is canonicalised; a key with no entry has no values
    (Go's `header[k]` is then nil) and so no match.
  */
  function IsWsHeader(header: HttpHeader, canon: string -> string, expectK: string, expectV: string): bool {
    var k := canon(expectK);
    k in header && HasValue(header[k], expectV)
  }

  /**
    `IsWsHeader` holds exactly when some value under the canonical key equals
    `expectV`; only the key is normalised, so a value differing in case does
    not match.
  */
  lemma IsWsHeaderMeans(header: HttpHeader, canon: string -> string, expectK: string, expectV: string)
    ensures IsWsHeader(header, canon, expectK, expectV) <==>
      canon(expectK) in header &&
      exists i :: 0 <= i < |header[canon(expectK)]| && header[canon(expectK)][i] == expectV
  {
    if canon(expectK) in header {
      HasValueMeans(header[canon(expectK)], expectV);
    }
  }

  /** A key that is missing, or present with no values, never matches. */
  lemma IsWsHeaderNoValues(header: HttpHeader, canon: string -> string, expectK: string, expectV: string)
    requires canon(expectK) !in header || header[canon(expectK)] == []
    ensures !IsWsHeader(header, canon, expectK, expectV)
  {
    IsWsHeaderMeans(header, canon, expectK, expectV);
  }

  /** `base64.StdEncoding.EncodedLen`: padded base64 takes four characters per started group of three bytes. */
  function Base64Len(n: nat): nat {
    (n + 2) / 3 * 4
  }

  /** `IsSWK`: Go's `len` counts the bytes of the string, not its characters. */
  function IsSWK(s: string): bool {
    |Utf8(s)| == 24
  }

  /**
    A key passes `IsSWK` exactly when its bytes are as many as the base64
    encoding of a 16-byte nonce has (section 4.2.1 of RFC 6455); for an
    ASCII key that is its length in characters.
  */
  lemma IsSWKMeans(s: string)
    ensures IsSWK(s) <==> |Utf8(s)| == Base64Len(16)
    ensures IsAscii(s) ==> (IsSWK(s) <==> |s| == 24)
  {
    if IsAscii(s) {
      AsciiUtf8(s);
    }
  }

  /** The bytes `EncodeSWK` feeds to SHA-1: `[]byte(swk + GUID)`. */
  function HashInput(swk: string): seq<Byte> {
    Utf8(swk + GUID)
  }

  /**
    `EncodeSWK`: the base64 text of the SHA-1 digest of the key followed by
    the GUID.
  */
  function EncodeSWK(swk: string, sha1: seq<Byte> -> seq<Byte>, base64: seq<Byte> -> string): string {
    base64(sha1(HashInput(swk)))
  }

  /**
    The hash input is the key's own bytes followed by the bytes of the GUID,
    so the digest depends on the key only through its bytes.
  */
  lemma HashInputMeans(swk: string)
    ensures HashInput(swk) == Utf8(swk) + Utf8(GUID)
  {
    Utf8Append(swk, GUID);
  }

  /** The GUID is ASCII, so (by `AsciiUtf8`) its bytes are its 36 character codes. */
  lemma GuidBytes()
    ensures IsAscii(GUID) && |Utf8(GUID)| == 36
  {
    GuidIsAscii();
    AsciiUtf8(GUID);
  }

  lemma GuidIsAscii()
    ensures IsAscii(GUID)
  {
  }

  /** Two keys with the same bytes are encoded the same way, whatever SHA-1 and base64 compute. */
  lemma EncodeSWKDependsOnKeyBytes(a: string, b: string, sha1: seq<Byte> -> seq<Byte>, base64: seq<Byte> -> string)
    requires Utf8(a) == Utf8(b)
    ensures EncodeSWK(a, sha1, base64) == EncodeSWK(b, sha1, base64)
  {
    HashInputMeans(a);
    HashInputMeans(b);
  }
}
