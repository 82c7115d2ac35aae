/** The key of a cached decision: its FNV-1a hash and its text. */
module CacheKey {
  import opened Text
  import opened Analyzer

  // ---------- FNV-1a over 64 bits ----------

  const OFFSET: bv64 := 14695981039346656037

  /** Multiplication by the FNV prime. */
  function TimesPrime(x: bv64): bv64 {
    x * 1099511628211
  }

  /** One step: fold in a byte, multiply by the FNV prime. */
  function Mix(h: bv64, c: bv8): bv64 {
    TimesPrime(h ^ (c as bv64))
  }

  function Fnv(h: bv64, bytes: seq<bv8>): bv64
    decreases |bytes|
  {
    if bytes == [] then h else Fnv(Mix(h, bytes[0]), bytes[1..])
  }

  function Concat(parts: seq<seq<bv8>>): seq<bv8> {
    if parts == [] then [] else parts[0] + Concat(parts[1..])
  }

  lemma {:induction false} FnvConcat(h: bv64, a: seq<bv8>, b: seq<bv8>)
    ensures Fnv(h, a + b) == Fnv(Fnv(h, a), b)
    decreases |a|
  {
    if a == [] {
      assert a + b == b;
    } else {
      assert (a + b)[1..] == a[1..] + b;
      FnvConcat(Mix(h, a[0]), a[1..], b);
    }
  }

  method SimpleHash(parts: seq<seq<bv8>>) returns (h: bv64)
    ensures h == Fnv(OFFSET, Concat(parts))
  {
    h := OFFSET;
    for i := 0 to |parts|
      invariant Fnv(h, Concat(parts[i..])) == Fnv(OFFSET, Concat(parts))
    {
      ghost var before := h;
      var bytes := parts[i];
      assert parts[i..][1..] == parts[i + 1..];
      FnvConcat(h, bytes, Concat(parts[i + 1..]));
      for j := 0 to |bytes|
        invariant Fnv(h, bytes[j..]) == Fnv(before, bytes)
      {
        assert bytes[j..][1..] == bytes[j + 1..];
        h := Mix(h, bytes[j]);
      }
    }
  }

  /** Published values of the 64-bit FNV-1a hash: of the empty text, of `a` and of `foobar`. */
  lemma KnownHashes()
    ensures Fnv(OFFSET, []) == 0xcbf29ce484222325
    ensures Fnv(OFFSET, [0x61]) == 0xaf63dc4c8601ec8c
    ensures Fnv(OFFSET, [0x66, 0x6f, 0x6f, 0x62, 0x61, 0x72]) == 0x85944171f73967e8
  {
    assert Mix(OFFSET, 0x61) == 0xaf63dc4c8601ec8c;
  }

  /** The prime has an inverse modulo 2^64. */
  lemma PrimeInvertible(x: bv64)
    ensures (x * 1099511628211) * 14886173955864302971 == x
  {
  }

  ghost function OverPrime(x: bv64): bv64 {
    x * 14886173955864302971
  }

  lemma OverUndoesTimes(x: bv64)
    ensures OverPrime(TimesPrime(x)) == x
  {
    PrimeInvertible(x);
    assert OverPrime(x * 1099511628211) == (x * 1099511628211) * 14886173955864302971;
  }

  lemma TimesPrimeInjective(x: bv64, y: bv64)
    requires TimesPrime(x) == TimesPrime(y)
    ensures x == y
  {
    OverUndoesTimes(x);
    OverUndoesTimes(y);
  }

  /** Each step loses nothing: it is injective in the state and in the byte. */
  lemma MixInjective(h: bv64, c: bv8, h': bv64, c': bv8)
    requires Mix(h, c) == Mix(h', c')
    ensures h == h' <==> c == c'
  {
    TimesPrimeInjective(h ^ (c as bv64), h' ^ (c' as bv64));
    XorCancels(h, c, h', c');
  }

  lemma XorCancels(h: bv64, c: bv8, h': bv64, c': bv8)
    requires h ^ (c as bv64) == h' ^ (c' as bv64)
    ensures h == h' <==> c == c'
  {
  }

  lemma {:induction false} FnvKeepsStatesApart(h: bv64, h': bv64, bytes: seq<bv8>)
    requires h != h'
    ensures Fnv(h, bytes) != Fnv(h', bytes)
    decreases |bytes|
  {
    if bytes != [] {
      var a, b := Mix(h, bytes[0]), Mix(h', bytes[0]);
      if a == b {
        MixInjective(h, bytes[0], h', bytes[0]);
      }
      FnvKeepsStatesApart(a, b, bytes[1..]);
    }
  }

  /** Texts that differ in exactly one byte have different hashes. */
  lemma OneByteApart(prefix: seq<bv8>, c: bv8, c': bv8, suffix: seq<bv8>)
    requires c != c'
    ensures Fnv(OFFSET, prefix + [c] + suffix) != Fnv(OFFSET, prefix + [c'] + suffix)
  {
    var h := Fnv(OFFSET, prefix);
    FnvAround(prefix, c, suffix);
    FnvAround(prefix, c', suffix);
    if Mix(h, c) == Mix(h, c') {
      MixInjective(h, c, h, c');
    }
    FnvKeepsStatesApart(Mix(h, c), Mix(h, c'), suffix);
  }

  lemma FnvAround(prefix: seq<bv8>, c: bv8, suffix: seq<bv8>)
    ensures Fnv(OFFSET, prefix + [c] + suffix) == Fnv(Mix(Fnv(OFFSET, prefix), c), suffix)
  {
    FnvConcat(OFFSET, prefix + [c], suffix);
    FnvConcat(OFFSET, prefix, [c]);
    assert [c][1..] == [];
    assert Fnv(Fnv(OFFSET, prefix), [c]) == Fnv(Mix(Fnv(OFFSET, prefix), c), []);
  }

  // ---------- Numerals ----------

  const NUMERALS := "0123456789abcdef"

  function DigitOf(d: nat): char
    requires d < 16
  {
    NUMERALS[d]
  }

  function ValueOf(c: char): nat {
    if '0' <= c <= '9' then (c - '0') as nat else if 'a' <= c <= 'f' then (c - 'a') as nat + 10 else 0
  }

  function Numeral(n: nat, base: nat): string
    requires 2 <= base <= 16
  {
    if n < base then [DigitOf(n)] else Numeral(n / base, base) + [DigitOf(n % base)]
  }

  function Pad(s: string, width: nat): string
    decreases width - |s|
  {
    if |s| >= width then s else Pad("0" + s, width)
  }

  function Reading(s: string, base: nat): nat {
    if s == "" then 0 else Reading(s[..|s| - 1], base) * base + ValueOf(s[|s| - 1])
  }

  lemma DigitReads(d: nat)
    requires d < 16
    ensures ValueOf(DigitOf(d)) == d && DigitOf(d) != '|'
  {
  }

  lemma OneMoreDigit(s: string, d: nat, base: nat)
    requires d < 16
    ensures Reading(s + [DigitOf(d)], base) == Reading(s, base) * base + d
  {
  }

  lemma QuotientAndRest(n: nat, base: nat)
    requires base > 0
    ensures n / base * base + n % base == n
  {
  }

  lemma {:induction false} NumeralReads(n: nat, base: nat)
    requires 2 <= base <= 16
    ensures Reading(Numeral(n, base), base) == n && '|' !in Numeral(n, base)
  {
    if n < base {
      DigitReads(n);
      OneMoreDigit("", n, base);
      assert "" + [DigitOf(n)] == [DigitOf(n)];
    } else {
      NumeralReads(n / base, base);
      DigitReads(n % base);
      OneMoreDigit(Numeral(n / base, base), n % base, base);
      QuotientAndRest(n, base);
    }
  }

  lemma {:induction false} LeadingZero(s: string, base: nat)
    ensures Reading("0" + s, base) == Reading(s, base)
  {
    var t := "0" + s;
    if s == "" {
      assert t[..0] == "";
    } else {
      assert t[..|t| - 1] == "0" + s[..|s| - 1];
      LeadingZero(s[..|s| - 1], base);
    }
  }

  lemma {:induction false} PadReads(s: string, width: nat, base: nat)
    requires '|' !in s
    ensures Reading(Pad(s, width), base) == Reading(s, base) && '|' !in Pad(s, width)
    decreases width - |s|
  {
    if |s| < width {
      LeadingZero(s, base);
      PadReads("0" + s, width, base);
    }
  }

  // ---------- The key ----------

  /** GraphQL names are ASCII, so a path has one byte per character. */
  function Byte(c: char): bv8 {
    (c as int % 256) as bv8
  }

  function Bytes(path: string): seq<bv8> {
    if path == "" then [] else [Byte(path[0])] + Bytes(path[1..])
  }

  function AllBytes(paths: seq<string>): seq<seq<bv8>> {
    if paths == [] then [] else [Bytes(paths[0])] + AllBytes(paths[1..])
  }

  function PathHash(info: Summary): bv64 {
    Fnv(OFFSET, Concat(AllBytes(info.fieldPaths)))
  }

  function HashText(h: bv64): string {
    Pad(Numeral(h as nat, 16), 8)
  }

  function Key(info: Summary): string {
    info.operationType + "|" + Numeral(info.depth, 10) + "|" + Numeral(info.fieldCount, 10) + "|"
    + HashText(PathHash(info))
  }

  lemma HashTextInjective(a: bv64, b: bv64)
    requires HashText(a) == HashText(b)
    ensures a == b
  {
    NumeralReads(a as nat, 16);
    NumeralReads(b as nat, 16);
    PadReads(Numeral(a as nat, 16), 8, 16);
    PadReads(Numeral(b as nat, 16), 8, 16);
    SameNumber(a, b);
  }

  lemma {:induction false} NoLeadingZero(n: nat, base: nat)
    requires 2 <= base <= 16 && n > 0
    ensures Numeral(n, base)[0] != '0'
  {
    if n >= base {
      NoLeadingZero(n / base, base);
    }
  }

  lemma {:induction false} PadExtends(s: string, width: nat)
    ensures |Pad(s, width)| == if |s| < width then width else |s|
    ensures |s| >= width ==> Pad(s, width) == s
    decreases width - |s|
  {
    if |s| < width {
      PadExtends("0" + s, width);
    }
  }

  /** The hash in hexadecimal, padded to eight digits and no further. */
  lemma HashTextExact(h: bv64)
    ensures var text := HashText(h);
            && Reading(text, 16) == h as nat && |text| >= 8 && (|text| > 8 ==> text[0] != '0')
  {
    var n := h as nat;
    NumeralReads(n, 16);
    PadReads(Numeral(n, 16), 8, 16);
    PadExtends(Numeral(n, 16), 8);
    if n > 0 {
      NoLeadingZero(n, 16);
    }
  }

  lemma SameNumber(a: bv64, b: bv64)
    requires a as nat == b as nat
    ensures a == b
  {
    assert (a as nat) as bv64 == a;
    assert (b as nat) as bv64 == b;
  }

  lemma FourPieces(a: string, b: string, c: string, d: string)
    requires '|' !in a && '|' !in b && '|' !in c && '|' !in d
    ensures SplitOn(a + "|" + b + "|" + c + "|" + d, '|') == [a, b, c, d]
  {
    SplitPiece(a, '|');
    SplitPiece(b, '|');
    SplitPiece(c, '|');
    SplitPiece(d, '|');
    SplitConcat(a + "|" + b + "|" + c, '|', d);
    SplitConcat(a + "|" + b, '|', c);
    SplitConcat(a, '|', b);
  }

  lemma KeySplits(info: Summary)
    requires '|' !in info.operationType
    ensures SplitOn(Key(info), '|') ==
            [info.operationType, Numeral(info.depth, 10), Numeral(info.fieldCount, 10), HashText(PathHash(info))]
  {
    NumeralReads(info.depth, 10);
    NumeralReads(info.fieldCount, 10);
    var h := PathHash(info) as nat;
    NumeralReads(h, 16);
    PadReads(Numeral(h, 16), 8, 16);
    FourPieces(info.operationType, Numeral(info.depth, 10), Numeral(info.fieldCount, 10), HashText(PathHash(info)));
  }

  /** Keys agree exactly when operation type, depth, field count and path hash all agree. */
  lemma KeysAgreeExactly(a: Summary, b: Summary)
    requires '|' !in a.operationType && '|' !in b.operationType
    ensures Key(a) == Key(b) <==>
              && a.operationType == b.operationType && a.depth == b.depth && a.fieldCount == b.fieldCount
              && PathHash(a) == PathHash(b)
  {
    if Key(a) == Key(b) {
      KeySplits(a);
      KeySplits(b);
      NumeralReads(a.depth, 10);
      NumeralReads(b.depth, 10);
      NumeralReads(a.fieldCount, 10);
      NumeralReads(b.fieldCount, 10);
      HashTextInjective(PathHash(a), PathHash(b));
    }
  }

  /** Summaries whose concatenated paths differ in exactly one byte have different keys. */
  lemma OneByteApartKeys(a: Summary, b: Summary, prefix: seq<bv8>, c: bv8, c': bv8, suffix: seq<bv8>)
    requires '|' !in a.operationType && '|' !in b.operationType && c != c'
    requires Concat(AllBytes(a.fieldPaths)) == prefix + [c] + suffix
    requires Concat(AllBytes(b.fieldPaths)) == prefix + [c'] + suffix
    ensures Key(a) != Key(b)
  {
    OneByteApart(prefix, c, c', suffix);
    if Key(a) == Key(b) {
      KeysAgreeExactly(a, b);
    }
  }

  lemma {:induction false} BytesConcat(a: string, b: string)
    ensures Bytes(a + b) == Bytes(a) + Bytes(b)
  {
    if a == "" {
      assert a + b == b;
    } else {
      assert (a + b)[1..] == a[1..] + b;
      BytesConcat(a[1..], b);
    }
  }

  /** The paths run together. */
  function Joined(paths: seq<string>): string {
    if paths == [] then "" else paths[0] + Joined(paths[1..])
  }

  lemma {:induction false} JoinedBytes(paths: seq<string>)
    ensures Concat(AllBytes(paths)) == Bytes(Joined(paths))
  {
    if paths != [] {
      JoinedBytes(paths[1..]);
      assert AllBytes(paths)[1..] == AllBytes(paths[1..]);
      BytesConcat(paths[0], Joined(paths[1..]));
    }
  }

  /** The hash does not see where one path ends and the next begins: summaries whose paths run together
      to the same text have the same key when type, depth and field count agree, whatever else differs. */
  lemma KeyIgnoresBoundaries(a: Summary, b: Summary)
    requires a.operationType == b.operationType && a.depth == b.depth && a.fieldCount == b.fieldCount
    requires Joined(a.fieldPaths) == Joined(b.fieldPaths)
    ensures Key(a) == Key(b)
  {
    JoinedBytes(a.fieldPaths);
    JoinedBytes(b.fieldPaths);
  }

  lemma {:induction false} MorePieces(s: string, c: char)
    requires c in s
    ensures |SplitOn(s, c)| >= 2
  {
    if s[0] != c {
      MorePieces(s[1..], c);
    }
  }

  /** The measures and the hash in a key. */
  function KeyTail(info: Summary): string {
    Numeral(info.depth, 10) + "|" + Numeral(info.fieldCount, 10) + "|" + HashText(PathHash(info))
  }

  lemma Reassociate(a: string, b: string, c: string, d: string)
    ensures a + "|" + b + "|" + c + "|" + d == a + ['|'] + (b + "|" + c + "|" + d)
  {
  }

  lemma KeyPieces(info: Summary)
    ensures |SplitOn(Key(info), '|')| == |SplitOn(info.operationType, '|')| + 3
  {
    var untyped := info.(operationType := "");
    KeySplits(untyped);
    KeyAfterType(untyped);
    KeyAfterType(info);
  }

  lemma KeyAfterType(info: Summary)
    ensures SplitOn(Key(info), '|') == SplitOn(info.operationType, '|') + SplitOn(KeyTail(info), '|')
  {
    Reassociate(info.operationType, Numeral(info.depth, 10), Numeral(info.fieldCount, 10), HashText(PathHash(info)));
    SplitConcat(info.operationType, '|', KeyTail(info));
  }

  /** A key tells whether the operation type contains the separator. */
  lemma KeyShowsSeparator(a: Summary, b: Summary)
    requires Key(a) == Key(b) && '|' !in a.operationType
    ensures '|' !in b.operationType
  {
    KeyPieces(a);
    KeyPieces(b);
    SplitPiece(a.operationType, '|');
    if '|' in b.operationType {
      MorePieces(b.operationType, '|');
    }
  }

  lemma ByteReads(c: char)
    requires c < 256 as char
    ensures Byte(c) as int == c as int
  {
    assert c as int % 256 == c as int;
  }

  lemma {:induction false} BytesAround(before: string, c: char, after: string)
    ensures Bytes(before + [c] + after) == Bytes(before) + [Byte(c)] + Bytes(after)
  {
    BytesConcat(before + [c], after);
    BytesConcat(before, [c]);
    assert [c][1..] == "" && Bytes([c]) == [Byte(c)];
  }

  /** Summaries whose paths, run together, differ in exactly one ASCII character have different keys. */
  lemma OneCharacterApartKeys(a: Summary, b: Summary, before: string, c: char, c': char, after: string)
    requires '|' !in a.operationType && '|' !in b.operationType
    requires c < 128 as char && c' < 128 as char && c != c'
    requires Joined(a.fieldPaths) == before + [c] + after && Joined(b.fieldPaths) == before + [c'] + after
    ensures Key(a) != Key(b)
  {
    JoinedBytes(a.fieldPaths);
    JoinedBytes(b.fieldPaths);
    BytesAround(before, c, after);
    BytesAround(before, c', after);
    ByteReads(c);
    ByteReads(c');
    OneByteApartKeys(a, b, Bytes(before), Byte(c), Byte(c'), Bytes(after));
  }

  /** Queries that share a key agree in operation type, depth and field count. */
  lemma SameKeySameMeasures(a: Summary, b: Summary)
    requires Key(a) == Key(b) && '|' !in a.operationType
    ensures a.operationType == b.operationType && a.depth == b.depth && a.fieldCount == b.fieldCount
  {
    KeyShowsSeparator(a, b);
    KeysAgreeExactly(a, b);
  }
}
