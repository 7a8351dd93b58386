/**
 * The stored name of an uploaded image: the lower-case hexadecimal rendering
 * of the SHA-256 digest of the original file name, followed by ".jpg"
 * (getSHA256Binary and the Sprintf("%x%s", ...) in addItem). The digest
 * itself is not computed here: callers pass the hash function in.
 */
module ImageName {
  import opened Options

  newtype byte = x: int | 0 <= x < 256

  /** What sha256.Sum256 returns: exactly 32 bytes. */
  type Digest = d: seq<byte> | |d| == 32 witness seq(32, _ => 0)

  const Suffix: string := ".jpg"

  predicate IsLowerHex(c: char) { '0' <= c <= '9' || 'a' <= c <= 'f' }

  predicate AllLowerHex(s: string) { forall i :: 0 <= i < |s| ==> IsLowerHex(s[i]) }

  function HexValue(c: char): (v: nat)
    requires IsLowerHex(c)
    ensures v < 16
  {
    if c <= '9' then c as int - '0' as int else c as int - 'a' as int + 10
  }

  function HexChar(v: nat): (c: char)
    requires v < 16
    ensures IsLowerHex(c) && HexValue(c) == v
  {
    if v < 10 then (v + '0' as int) as char else (v - 10 + 'a' as int) as char
  }

  /** One byte under %x: two lower-case digits, high nibble first. */
  function ByteHex(b: byte): string
  {
    [HexChar(b as int / 16), HexChar(b as int % 16)]
  }

  /** The %x verb applied to a byte slice. */
  function Hex(bs: seq<byte>): (s: string)
    ensures |s| == 2 * |bs| && AllLowerHex(s)
  {
    if bs == [] then "" else ByteHex(bs[0]) + Hex(bs[1..])
  }

  /** Reads back a string of lower-case hex digit pairs. */
  function UnHex(s: string): (bs: seq<byte>)
    requires |s| % 2 == 0 && AllLowerHex(s)
    ensures |bs| == |s| / 2
  {
    if s == [] then [] else [(HexValue(s[0]) * 16 + HexValue(s[1])) as byte] + UnHex(s[2..])
  }

  lemma {:induction false} UnHexHex(bs: seq<byte>)
    ensures UnHex(Hex(bs)) == bs
  {
    if bs != [] {
      var s := Hex(bs);
      assert s[2..] == Hex(bs[1..]);
      UnHexHex(bs[1..]);
    }
  }

  lemma {:induction false} HexUnHex(s: string)
    requires |s| % 2 == 0 && AllLowerHex(s)
    ensures Hex(UnHex(s)) == s
  {
    if s != [] {
      var bs := UnHex(s);
      assert bs[1..] == UnHex(s[2..]);
      HexUnHex(s[2..]);
      assert ByteHex(bs[0]) == s[..2];
      assert s == s[..2] + s[2..];
    }
  }

  lemma HexInjective(a: seq<byte>, b: seq<byte>)
    ensures Hex(a) == Hex(b) <==> a == b
  {
    UnHexHex(a);
    UnHexHex(b);
  }

  /** The shape of every stored image name: 64 lower-case hex digits, then ".jpg". */
  predicate IsStoredName(s: string)
  {
    |s| == 68 && AllLowerHex(s[..64]) && s[64..] == Suffix
  }

  /** fmt.Sprintf("%x%s", digest, ".jpg"). */
  function StoredName(d: Digest): (name: string)
    ensures IsStoredName(name)
    ensures '/' !in name
  {
    var name := Hex(d) + Suffix;
    assert name[..64] == Hex(d) && name[64..] == Suffix;
    assert forall i :: 0 <= i < |name| ==> name[i] != '/' by {
      forall i | 0 <= i < |name| ensures name[i] != '/' {
        if i < 64 { assert IsLowerHex(name[..64][i]); }
        else { assert name[i] == Suffix[i - 64]; }
      }
    }
    name
  }

  /** The name addItem stores for an upload whose original file name is `filename`. */
  function ImageFileName(filename: string, sha256: string -> Digest): (name: string)
    ensures IsStoredName(name) && DigestOf(name) == Some(sha256(filename))
  {
    StoredNameRoundTrip(sha256(filename));
    StoredName(sha256(filename))
  }

  /** The digest a stored name was made from, if it has the stored shape. */
  function DigestOf(name: string): (d: Option<Digest>)
    ensures d.Some? <==> IsStoredName(name)
  {
    if IsStoredName(name) then var d: Digest := UnHex(name[..64]); Some(d) else None
  }

  lemma StoredNameRoundTrip(d: Digest)
    ensures DigestOf(StoredName(d)) == Some(d)
  {
    var name := StoredName(d);
    assert name[..64] == Hex(d);
    UnHexHex(d);
  }

  lemma DigestOfRoundTrip(name: string)
    requires DigestOf(name).Some?
    ensures StoredName(DigestOf(name).value) == name
  {
    HexUnHex(name[..64]);
    assert name == name[..64] + name[64..];
  }

  /**
   * Two uploads get the same stored name exactly when their file names have
   * the same digest; the file contents play no part.
   */
  lemma SameNameIffSameDigest(f: string, g: string, sha256: string -> Digest)
    ensures ImageFileName(f, sha256) == ImageFileName(g, sha256) <==> sha256(f) == sha256(g)
  {
    StoredNameRoundTrip(sha256(f));
    StoredNameRoundTrip(sha256(g));
  }
}
