/** The rendering of a digest as a file name in `save_file`
 *  (src/main.rs:93-98): a left fold over the digest bytes that appends
 *  `format!("{b:x}")` of each byte, that is its lowercase hexadecimal digits
 *  WITHOUT zero padding, so a byte below 0x10 gives one character.
 */
module Hex {
  import opened Io

  /** A character `{:x}` can produce. */
  predicate IsLowerHexDigit(c: char) {
    '0' <= c <= '9' || 'a' <= c <= 'f'
  }

  /** The digit of a value below sixteen. */
  function HexDigit(v: nat): (c: char)
    requires v < 16
    ensures IsLowerHexDigit(c)
  {
    if v < 10 then ('0' as int + v) as char else ('a' as int + v - 10) as char
  }

  /** The value of a lowercase hexadecimal digit. */
  function DigitValue(c: char): (v: nat)
    requires IsLowerHexDigit(c)
    ensures v < 16 && HexDigit(v) == c
  {
    if c <= '9' then c as int - '0' as int else c as int - 'a' as int + 10
  }

  /** `format!("{b:x}")`. */
  function LowerHex(b: byte): (s: string)
    ensures 1 <= |s| <= 2
    ensures |s| == 1 <==> b < 16
    ensures forall i :: 0 <= i < |s| ==> IsLowerHexDigit(s[i])
  {
    if b < 16 then [HexDigit(b)] else [HexDigit(b / 16), HexDigit(b % 16)]
  }

  /** The value of a string of hexadecimal digits, most significant first. */
  function ParseHex(s: string): nat
    requires forall i :: 0 <= i < |s| ==> IsLowerHexDigit(s[i])
  {
    if s == [] then 0 else 16 * ParseHex(s[..|s| - 1]) + DigitValue(s[|s| - 1])
  }

  /** Each byte's rendering reads back as that byte, and carries no leading
   *  zero except for the byte zero itself: it is the shortest rendering. */
  lemma LowerHexRoundTrip(b: byte)
    ensures ParseHex(LowerHex(b)) == b
    ensures LowerHex(b)[0] == '0' <==> b == 0
  {
    var s := LowerHex(b);
    if b >= 16 {
      assert s[..1] == [HexDigit(b / 16)];
      assert ParseHex(s[..1]) == 16 * ParseHex([]) + b / 16;
    } else {
      assert ParseHex(s) == 16 * ParseHex([]) + b;
    }
  }

  /** The fold of `save_file`: `acc` is the string built so far. The fold
   *  only appends, one or two characters per byte. */
  function FoldHex(acc: string, digest: seq<byte>): (r: string)
    ensures acc <= r
    ensures |acc| + |digest| <= |r| <= |acc| + 2 * |digest|
    decreases |digest|
  {
    if digest == [] then acc else FoldHex(acc + LowerHex(digest[0]), digest[1..])
  }

  /** The file name `save_file` gives a digest: one or two characters per
   *  byte. */
  function HexName(digest: seq<byte>): (r: string)
    ensures |digest| <= |r| <= 2 * |digest|
  {
    FoldHex("", digest)
  }

  /** The concatenation of a sequence of strings, in order. */
  function Flatten(pieces: seq<string>): string {
    if pieces == [] then "" else pieces[0] + Flatten(pieces[1..])
  }

  /** Each digest byte's rendering, in digest order. */
  function Pieces(digest: seq<byte>): (p: seq<string>)
    ensures |p| == |digest|
    ensures forall i :: 0 <= i < |digest| ==> p[i] == LowerHex(digest[i])
  {
    seq(|digest|, i requires 0 <= i < |digest| => LowerHex(digest[i]))
  }

  lemma {:induction false} FoldHexIsAppend(acc: string, digest: seq<byte>)
    ensures FoldHex(acc, digest) == acc + Flatten(Pieces(digest))
    decreases |digest|
  {
    if digest == [] {
      assert Pieces(digest) == [];
    } else {
      FoldHexIsAppend(acc + LowerHex(digest[0]), digest[1..]);
      assert Pieces(digest)[1..] == Pieces(digest[1..]);
      assert acc + LowerHex(digest[0]) + Flatten(Pieces(digest[1..]))
          == acc + (LowerHex(digest[0]) + Flatten(Pieces(digest[1..])));
    }
  }

  /** The name is the concatenation, in digest-byte order, of each byte's
   *  unpadded lowercase hexadecimal rendering. */
  lemma HexNameIsConcatenation(digest: seq<byte>)
    ensures HexName(digest) == Flatten(Pieces(digest))
  {
    FoldHexIsAppend("", digest);
  }

  lemma {:induction false} HexNameAppend(a: seq<byte>, b: seq<byte>)
    ensures HexName(a + b) == HexName(a) + HexName(b)
    decreases |a|
  {
    HexNameIsConcatenation(a + b);
    HexNameIsConcatenation(a);
    HexNameIsConcatenation(b);
    FlattenPiecesAppend(a, b);
  }

  lemma {:induction false} FlattenPiecesAppend(a: seq<byte>, b: seq<byte>)
    ensures Flatten(Pieces(a + b)) == Flatten(Pieces(a)) + Flatten(Pieces(b))
    decreases |a|
  {
    if a == [] {
      assert a + b == b;
      assert Pieces(a) == [];
    } else {
      assert (a + b)[1..] == a[1..] + b;
      assert Pieces(a + b)[1..] == Pieces(a[1..] + b);
      assert Pieces(a)[1..] == Pieces(a[1..]);
      FlattenPiecesAppend(a[1..], b);
    }
  }

  lemma HexNameSingle(b: byte)
    ensures HexName([b]) == LowerHex(b)
  {
    assert [b][1..] == [];
    assert HexName([b]) == FoldHex("" + LowerHex(b), []);
    assert "" + LowerHex(b) == LowerHex(b);
  }

  /** The name uses lowercase hexadecimal digits only. */
  lemma {:induction false} HexNameAlphabet(digest: seq<byte>)
    ensures forall i :: 0 <= i < |HexName(digest)| ==> IsLowerHexDigit(HexName(digest)[i])
    decreases |digest|
  {
    if digest != [] {
      HexNameAlphabet(digest[1..]);
      assert digest == [digest[0]] + digest[1..];
      HexNameAppend([digest[0]], digest[1..]);
      HexNameSingle(digest[0]);
    }
  }

  /** The name of an n-byte digest has between n and 2n characters, and
   *  exactly 2n only when no byte is below 0x10. */
  lemma {:induction false} HexNameLength(digest: seq<byte>)
    ensures |digest| <= |HexName(digest)| <= 2 * |digest|
    ensures |HexName(digest)| == 2 * |digest| <==> forall i :: 0 <= i < |digest| ==> digest[i] >= 16
    decreases |digest|
  {
    if digest != [] {
      HexNameLength(digest[1..]);
      assert digest == [digest[0]] + digest[1..];
      HexNameAppend([digest[0]], digest[1..]);
      HexNameSingle(digest[0]);
      if forall i :: 0 <= i < |digest[1..]| ==> digest[1..][i] >= 16 {
        assert forall i :: 1 <= i < |digest| ==> digest[i] >= 16 by {
          forall i | 1 <= i < |digest| ensures digest[i] >= 16 {
            assert digest[i] == digest[1..][i - 1];
          }
        }
      } else {
        var j :| 0 <= j < |digest[1..]| && digest[1..][j] < 16;
        assert digest[j + 1] < 16;
      }
    }
  }

  /** A name of exactly two characters per byte splits back into its
   *  digest: written as pairs of digits. */
  function DecodePairs(s: string): seq<byte>
    requires |s| % 2 == 0
    requires forall i :: 0 <= i < |s| ==> IsLowerHexDigit(s[i])
  {
    if s == [] then [] else [16 * DigitValue(s[0]) + DigitValue(s[1])] + DecodePairs(s[2..])
  }

  /** When every byte of the digest is at least 0x10 the name is
   *  full-length and decodes back to the digest. */
  lemma {:induction false} HexNameFullLengthDecodes(digest: seq<byte>)
    requires forall i :: 0 <= i < |digest| ==> digest[i] >= 16
    ensures |HexName(digest)| == 2 * |digest|
    ensures forall i :: 0 <= i < |HexName(digest)| ==> IsLowerHexDigit(HexName(digest)[i])
    ensures DecodePairs(HexName(digest)) == digest
    decreases |digest|
  {
    HexNameLength(digest);
    HexNameAlphabet(digest);
    if digest != [] {
      var rest := digest[1..];
      assert forall i :: 0 <= i < |rest| ==> rest[i] >= 16 by {
        forall i | 0 <= i < |rest| ensures rest[i] >= 16 {
          assert rest[i] == digest[i + 1];
        }
      }
      HexNameFullLengthDecodes(rest);
      assert digest == [digest[0]] + rest;
      HexNameAppend([digest[0]], rest);
      var head := LowerHex(digest[0]);
      HexNameSingle(digest[0]);
      assert HexName(digest)[2..] == HexName(rest);
      assert HexName(digest)[0] == head[0] && HexName(digest)[1] == head[1];
    }
  }

  /** Because bytes are not zero-padded, two different digests can share a
   *  name: 01 23 and 12 03 both render as "123", whatever follows. */
  lemma NamesCollide(rest: seq<byte>)
    ensures [1, 0x23] + rest != [0x12, 3] + rest
    ensures HexName([1, 0x23] + rest) == HexName([0x12, 3] + rest)
  {
    assert ([1, 0x23] + rest)[0] == 1;
    HexNameAppend([1, 0x23], rest);
    HexNameAppend([0x12, 3], rest);
    assert HexName([1, 0x23]) == "123";
    assert HexName([0x12, 3]) == "123";
  }
}
