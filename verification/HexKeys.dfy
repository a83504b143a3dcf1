/** trie/trie_encoding.go: keys as nibbles with a terminator, and the hex-prefix form of
    Appendix C of the Ethereum Yellow Paper in which nodes store them. */
module HexKeys {
  import opened Bytes

  const TERM: byte := 16

  predicate HasTerm(s: seq<byte>) {
    |s| > 0 && s[|s| - 1] == 16
  }

  predicate Nibbles(s: seq<byte>) {
    forall i | 0 <= i < |s| :: s[i] < 16
  }

  /** The key of a value in the trie: nibbles, and the terminator at the end only. */
  predicate HexKey(s: seq<byte>) {
    HasTerm(s) && Nibbles(s[..|s| - 1])
  }

  /** Keys of nodes: nibbles with or without the terminator. */
  predicate NodeKey(s: seq<byte>) {
    Nibbles(s) || HexKey(s)
  }

  // ---------------------------------------------------------------- bytes to nibbles

  /** Specification of `keybytesToHex`. */
  function KeyToHex(str: seq<byte>): (h: seq<byte>)
    ensures |h| == 2 * |str| + 1
  {
    if str == [] then [TERM] else [str[0] / 16, str[0] % 16] + KeyToHex(str[1..])
  }

  lemma {:induction false} KeyToHexAt(str: seq<byte>, i: nat)
    requires i < |str|
    ensures KeyToHex(str)[2 * i] == str[i] / 16 && KeyToHex(str)[2 * i + 1] == str[i] % 16
  {
    if i > 0 {
      KeyToHexAt(str[1..], i - 1);
    }
  }

  lemma {:induction false} KeyToHexIsKey(str: seq<byte>)
    ensures HexKey(KeyToHex(str))
  {
    if str != [] {
      KeyToHexIsKey(str[1..]);
      var h, t := KeyToHex(str), KeyToHex(str[1..]);
      assert forall i | 2 <= i < |h| :: h[i] == t[i - 2];
    }
  }

  /** Different keys have different nibbles, and neither extends the other. */
  lemma {:induction false} KeyToHexPrefixFree(a: seq<byte>, b: seq<byte>)
    requires IsPrefix(KeyToHex(a), KeyToHex(b))
    ensures a == b
  {
    var h, g := KeyToHex(a), KeyToHex(b);
    if a == [] {
      assert g[0] == g[..1][0] == 16;
    } else {
      assert h[0] == g[..|h|][0] == g[0] && h[1] == g[..|h|][1] == g[1];
      if b != [] {
        assert a[0] == b[0];
        assert g[2..][..|h| - 2] == g[..|h|][2..] == h[2..];
        assert g[2..] == KeyToHex(b[1..]) && h[2..] == KeyToHex(a[1..]);
        KeyToHexPrefixFree(a[1..], b[1..]);
        assert a == [a[0]] + a[1..] && b == [b[0]] + b[1..];
      }
    }
  }

  method KeyBytesToHex(str: seq<byte>) returns (nibbles: array<byte>)
    ensures fresh(nibbles) && nibbles[..] == KeyToHex(str)
  {
    var l := |str| * 2 + 1;
    nibbles := new byte[l];
    for i := 0 to |str|
      invariant forall j | 0 <= j < i :: nibbles[2 * j] == str[j] / 16 && nibbles[2 * j + 1] == str[j] % 16
    {
      nibbles[i * 2], nibbles[i * 2 + 1] := str[i] / 16, str[i] % 16;
    }
    nibbles[l - 1] := 16;
    KeyToHexIsKey(str);
    forall j | 0 <= j < l ensures nibbles[j] == KeyToHex(str)[j] {
      if j < l - 1 {
        KeyToHexAt(str, j / 2);
      }
    }
  }

  // ---------------------------------------------------------------- the compact form

  /** Specification of `decodeNibbles`: pairs of nibbles packed into bytes. */
  function Pack(nibbles: seq<byte>): (b: seq<byte>)
    requires Nibbles(nibbles) && |nibbles| % 2 == 0
    ensures |b| == |nibbles| / 2
  {
    if nibbles == [] then [] else [nibbles[0] as int * 16 + nibbles[1]] + Pack(nibbles[2..])
  }

  lemma {:induction false} PackAt(nibbles: seq<byte>, i: nat)
    requires Nibbles(nibbles) && |nibbles| % 2 == 0 && i < |nibbles| / 2
    ensures Pack(nibbles)[i] == nibbles[2 * i] as int * 16 + nibbles[2 * i + 1]
  {
    if i > 0 {
      PackAt(nibbles[2..], i - 1);
    }
  }

  /** Packing is undone by `keybytesToHex`, up to the terminator it adds. */
  lemma {:induction false} UnpackPacked(nibbles: seq<byte>)
    requires Nibbles(nibbles) && |nibbles| % 2 == 0
    ensures KeyToHex(Pack(nibbles)) == nibbles + [TERM]
  {
    if nibbles != [] {
      UnpackPacked(nibbles[2..]);
      assert nibbles == [nibbles[0], nibbles[1]] + nibbles[2..];
    }
  }

  lemma {:induction false} PackUnpacked(str: seq<byte>)
    ensures Nibbles(KeyToHex(str)[..2 * |str|]) && Pack(KeyToHex(str)[..2 * |str|]) == str
  {
    KeyToHexIsKey(str);
    if str != [] {
      PackUnpacked(str[1..]);
      var h := KeyToHex(str)[..2 * |str|];
      assert h[2..] == KeyToHex(str[1..])[..2 * |str[1..]|];
    }
  }

  method DecodeNibbles(nibbles: seq<byte>, bytes: array<byte>, start: nat)
    requires Nibbles(nibbles) && |nibbles| % 2 == 0 && start + |nibbles| / 2 == bytes.Length
    modifies bytes
    ensures bytes[start..] == Pack(nibbles)
    ensures bytes[..start] == old(bytes[..start])
  {
    var bi, ni := start, 0;
    while ni < |nibbles|
      invariant 0 <= ni <= |nibbles| && ni % 2 == 0 && bi == start + ni / 2
      invariant bytes[start..bi] == Pack(nibbles)[..ni / 2]
      invariant bytes[..start] == old(bytes[..start])
    {
      PackAt(nibbles, ni / 2);
      bytes[bi] := nibbles[ni] as int * 16 + nibbles[ni + 1];
      bi, ni := bi + 1, ni + 2;
    }
    assert bytes[start..] == bytes[start..bi] && Pack(nibbles)[..ni / 2] == Pack(nibbles);
  }

  /** Specification of `hexToCompact`: a flag nibble for the terminator and an odd length. */
  function Compact(hex: seq<byte>): (c: seq<byte>)
    requires NodeKey(hex)
    ensures |c| >= 1
  {
    var flag: int := if HasTerm(hex) then 32 else 0;
    var body := Body(hex);
    if |body| % 2 == 1 then [flag + 16 + body[0]] + Pack(body[1..]) else [flag] + Pack(body)
  }

  method HexToCompact(hex: seq<byte>) returns (buf: array<byte>)
    requires NodeKey(hex)
    ensures fresh(buf) && buf[..] == Compact(hex)
  {
    var rest := hex;
    var terminator := 0;
    if HasTerm(rest) {
      terminator := 1;
      rest := rest[..|rest| - 1];
    }
    buf := new byte[|rest| / 2 + 1];
    buf[0] := terminator * 32;
    if |rest| % 2 == 1 {
      buf[0] := terminator * 32 + 16 + rest[0];
      rest := rest[1..];
    }
    ghost var first := buf[0];
    DecodeNibbles(rest, buf, 1);
    assert buf[..1] == [first];
    assert buf[..] == buf[..1] + buf[1..];
  }

  /** `compactToHex` */
  function CompactToHex(compact: seq<byte>): seq<byte> {
    if |compact| == 0 then compact
    else
      var base := KeyToHex(compact);
      var base' := if base[0] < 2 then base[..|base| - 1] else base;
      var chop := 2 - base[0] % 2;
      base'[chop..]
  }

  function Body(hex: seq<byte>): seq<byte> {
    if HasTerm(hex) then hex[..|hex| - 1] else hex
  }

  /** The nibbles that the compact form packs: flags, padding to an even length, the key. */
  function Flagged(hex: seq<byte>): (n: seq<byte>)
    ensures |n| % 2 == 0 && |n| >= 2
  {
    var flag := if HasTerm(hex) then 2 else 0;
    if |Body(hex)| % 2 == 1 then [flag + 1] + Body(hex) else [flag, 0] + Body(hex)
  }

  lemma CompactPacks(hex: seq<byte>)
    requires NodeKey(hex)
    ensures Nibbles(Flagged(hex)) && Pack(Flagged(hex)) == Compact(hex)
  {
    if |Body(hex)| % 2 == 1 {
      assert Flagged(hex)[2..] == Body(hex)[1..];
    } else {
      assert Flagged(hex)[2..] == Body(hex);
    }
  }

  lemma FlaggedDrop(hex: seq<byte>)
    ensures Flagged(hex)[2 - Flagged(hex)[0] % 2..] == Body(hex)
    ensures HasTerm(hex) <==> Flagged(hex)[0] >= 2
    ensures hex == if HasTerm(hex) then Body(hex) + [TERM] else Body(hex)
  {
    var body := Body(hex);
    if |body| % 2 == 1 {
      assert ([Flagged(hex)[0]] + body)[1..] == body;
    } else {
      assert ([Flagged(hex)[0], 0] + body)[2..] == body;
    }
  }

  /** The nibbles of a compact key: 0 to 3 for the length being odd and for the terminator, a
      zero after an even one, and the key's own nibbles. */
  lemma CompactNibbles(hex: seq<byte>)
    requires NodeKey(hex)
    ensures var key := if HasTerm(hex) then hex[..|hex| - 1] else hex;
      KeyToHex(Compact(hex)) ==
        (if |key| % 2 == 1 then if HasTerm(hex) then [3] else [1] else if HasTerm(hex) then [2, 0] else [0, 0]) + key + [16]
  {
    CompactPacks(hex);
    UnpackPacked(Flagged(hex));
  }

  /** `compactToHex` inverts `hexToCompact` on every key of a node. */
  lemma CompactRoundTrip(hex: seq<byte>)
    requires NodeKey(hex)
    ensures CompactKey(Compact(hex)) && CompactToHex(Compact(hex)) == hex
  {
    hide Flagged, Compact, Pack, KeyToHex;
    CompactIsCompactKey(hex);
    var n := Flagged(hex);
    CompactPacks(hex);
    UnpackPacked(n);
    FlaggedDrop(hex);
    var chop := 2 - n[0] % 2;
    assert (n + [TERM])[chop..] == n[chop..] + [TERM];
    assert (n + [TERM])[..|n|] == n;
  }

  /** The compact keys: a flag nibble below four, and padding zero when the length is even. */
  predicate CompactKey(c: seq<byte>) {
    && |c| > 0
    && c[0] / 16 < 4
    && (c[0] / 16 % 2 == 0 ==> c[0] % 16 == 0)
  }

  lemma CompactIsCompactKey(hex: seq<byte>)
    requires NodeKey(hex)
    ensures CompactKey(Compact(hex))
  {
  }

  lemma HexKeyEnds(h: seq<byte>)
    requires HexKey(h)
    ensures |h| > 0 && h[|h| - 1] == TERM
  {
  }

  lemma UnpackedHead(c: seq<byte>)
    requires |c| > 0
    ensures var n := KeyToHex(c)[..2 * |c|];
      n[0] == c[0] / 16 && n[1] == c[0] % 16 && KeyToHex(c) == n + [TERM]
  {
    KeyToHexAt(c, 0);
    hide *;
    KeyToHexIsKey(c);
    LastSplit(KeyToHex(c));
    HexKeyEnds(KeyToHex(c));
  }

  lemma NibblesCut(c: seq<byte>)
    ensures var n := KeyToHex(c)[..2 * |c|];
      Nibbles(n) && forall i | 0 <= i < |n| :: n[i] < 16 && Nibbles(n[i..])
  {
    KeyToHexIsKey(c);
  }

  lemma PlainKey(body: seq<byte>)
    requires Nibbles(body)
    ensures NodeKey(body) && !HasTerm(body) && Body(body) == body
    ensures NodeKey(body + [TERM]) && HasTerm(body + [TERM]) && Body(body + [TERM]) == body
  {
    assert (body + [TERM])[..|body|] == body;
  }

  lemma Reflag(n: seq<byte>, hex: seq<byte>)
    requires |n| >= 2 && |n| % 2 == 0 && n[0] < 4 && (n[0] % 2 == 0 ==> n[1] == 0)
    requires Body(hex) == n[2 - n[0] % 2..] && (HasTerm(hex) <==> n[0] >= 2)
    ensures Flagged(hex) == n
  {
    hide HasTerm, Body;
    if n[0] == 1 || n[0] == 3 {
      assert n == [n[0]] + n[1..];
      assert |n[1..]| % 2 == 1;
    } else {
      assert n == [n[0], 0] + n[2..];
      assert |n[2..]| % 2 == 0;
    }
  }

  /** And `hexToCompact` inverts `compactToHex` on every compact key. */
  lemma HexRoundTrip(c: seq<byte>)
    requires CompactKey(c)
    ensures NodeKey(CompactToHex(c)) && Compact(CompactToHex(c)) == c
  {
    hide Compact, Pack, KeyToHex, Nibbles, Body, Flagged, NodeKey, HasTerm;
    var n := KeyToHex(c)[..2 * |c|];
    NibblesCut(c);
    UnpackedHead(c);
    PackUnpacked(c);
    var body := n[2 - n[0] % 2..];
    PlainKey(body);
    var hex := CompactToHex(c);
    assert KeyToHex(c)[..|KeyToHex(c)| - 1] == n;
    assert hex == if n[0] < 2 then body else body + [TERM];
    Reflag(n, hex);
    CompactPacks(hex);
  }

  // ---------------------------------------------------------------- prefixes

  /** Specification of `prefixLen`: how far two keys agree. */
  function PrefixLen(a: seq<byte>, b: seq<byte>): (n: nat)
    ensures n <= |a| && n <= |b| && a[..n] == b[..n]
    ensures n < |a| && n < |b| ==> a[n] != b[n]
  {
    if a == [] || b == [] || a[0] != b[0] then 0
    else
      var n := 1 + PrefixLen(a[1..], b[1..]);
      assert a[..n] == [a[0]] + a[1..][..n - 1] && b[..n] == [b[0]] + b[1..][..n - 1];
      n
  }

  /** Where two keys part, or one ends, is their prefix length. */
  lemma {:induction false} PrefixLenExact(a: seq<byte>, b: seq<byte>, n: nat)
    requires n <= |a| && n <= |b| && a[..n] == b[..n]
    requires n == |a| || n == |b| || a[n] != b[n]
    ensures PrefixLen(a, b) == n
  {
    if n > 0 {
      assert a[0] == a[..n][0] == b[0];
      assert a[1..][..n - 1] == a[..n][1..] == b[1..][..n - 1];
      PrefixLenExact(a[1..], b[1..], n - 1);
    }
  }

  method CommonPrefix(a: seq<byte>, b: seq<byte>) returns (n: nat)
    ensures n == PrefixLen(a, b)
  {
    var length := if |b| < |a| then |b| else |a|;
    for i := 0 to length
      invariant a[..i] == b[..i]
    {
      if a[i] != b[i] {
        PrefixLenExact(a, b, i);
        return i;
      }
    }
    PrefixLenExact(a, b, length);
    return length;
  }

  /** On the path to the key, or one step beside it. */
  predicate Near(p: seq<byte>, key: seq<byte>) {
    p == [] || IsPrefix(p[..|p| - 1], key)
  }
}
