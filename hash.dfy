/** Content hashing (encrypt/my-hash.go). SHA-256 (FIPS 180-4) stays
    uninterpreted: every operation takes the digest function as a parameter. */
module Hash {
  import opened Common
  import Octets

  /** A SHA-256 digest: 32 bytes. */
  type Digest = d: Bytes | |d| == 32 witness seq(32, i => 0 as byte)

  const HexDigits: string := "0123456789abcdef"

  predicate IsLowerHex(s: string)
  {
    forall i :: 0 <= i < |s| ==> s[i] in HexDigits
  }

  /** `hex.Encode` / `%x`: two lowercase hex digits per byte, high nibble first. */
  function Hex(b: Bytes): (s: string)
    ensures |s| == 2 * |b| && IsLowerHex(s)
  {
    if b == [] then ""
    else [HexDigits[b[0] as int / 16], HexDigits[b[0] as int % 16]] + Hex(b[1..])
  }

  /** The value of a lowercase hex digit. */
  function HexValue(c: char): (v: nat)
    requires c in HexDigits
    ensures v < 16 && HexDigits[v] == c
  {
    if '0' <= c <= '9' then c as int - '0' as int else c as int - 'a' as int + 10
  }

  lemma HexValueOfDigit(v: nat)
    requires v < 16
    ensures HexValue(HexDigits[v]) == v
  {
  }

  /** Reads a hex string back into its bytes. */
  function Unhex(s: string): (b: Bytes)
    requires |s| % 2 == 0 && IsLowerHex(s)
    ensures |b| == |s| / 2
  {
    if s == [] then []
    else [(HexValue(s[0]) * 16 + HexValue(s[1])) as byte] + Unhex(s[2..])
  }

  /** Hex encoding loses nothing: the digest can be read back from its string. */
  lemma {:induction false} UnhexHex(b: Bytes)
    ensures Unhex(Hex(b)) == b
  {
    if b != [] {
      UnhexHead(b);
      UnhexHex(b[1..]);
      assert b == [b[0]] + b[1..];
    }
  }

  /** The first two digits read back as the first byte. */
  lemma UnhexHead(b: Bytes)
    requires b != []
    ensures Unhex(Hex(b)) == [b[0]] + Unhex(Hex(b[1..]))
  {
    var s := Hex(b);
    var v := b[0] as int;
    assert s[0] == HexDigits[v / 16] && s[1] == HexDigits[v % 16];
    HexValueOfDigit(v / 16);
    HexValueOfDigit(v % 16);
    Octets.NibblesRoundTrip(b[0]);
    assert s[2..] == Hex(b[1..]);
  }

  /** The string form of a digest, as every `GenerateHash*` function returns it. */
  function HexDigest(d: Digest): (s: string)
    ensures |s| == 64 && IsLowerHex(s)
    ensures Unhex(s) == d
  {
    UnhexHex(d);
    Hex(d)
  }

  // ---------------------------------------------------------------------
  // Hashing a file

  /** A file as the hashing functions meet it: it may fail to open, or fail while being read. */
  datatype FileSource = CannotOpen | ReadFails | Readable(content: Bytes)

  datatype HashError = OpenError | ReadError | SeekError

  /** `GenerateHashWithFilePath` and `GenerateHashFromFileNames_BufferedAndPooled`:
      the hex digest of the whole content, or the empty string with the error. */
  function HashFile(f: FileSource, digest: Bytes -> Digest): (r: (string, Option<HashError>))
    ensures r.1.None? <==> f.Readable?
    ensures r.1.Some? ==> r.0 == ""
    ensures f.Readable? ==> |r.0| == 64 && IsLowerHex(r.0) && Unhex(r.0) == digest(f.content)
  {
    match f
    case CannotOpen => ("", Some(OpenError))
    case ReadFails => ("", Some(ReadError))
    case Readable(content) => (HexDigest(digest(content)), None)
  }

  /** An open `*os.File`: its content, the current offset, and whether seeking and reading succeed. */
  datatype OpenFile = OpenFile(content: Bytes, position: nat, seekable: bool, readable: bool)

  /** `GenerateHashWithFileIO`: seeks to offset 0, then hashes everything from there. */
  function HashOpenFile(f: OpenFile, digest: Bytes -> Digest): (r: (string, Option<HashError>))
    ensures r.1.None? <==> f.seekable && f.readable
    ensures r.1.Some? ==> r.0 == ""
    ensures r.1.None? ==> |r.0| == 64 && IsLowerHex(r.0) && Unhex(r.0) == digest(f.content)
  {
    if !f.seekable then ("", Some(SeekError))
    else
      var g := f.(position := 0);
      if !g.readable then ("", Some(ReadError))
      else (HexDigest(digest(g.content[g.position..])), None)
  }

  /** The offset the file was left at before the call does not change the hash. */
  lemma HashOpenFileAnyPosition(f: OpenFile, p: nat, digest: Bytes -> Digest)
    ensures HashOpenFile(f.(position := p), digest) == HashOpenFile(f, digest)
  {
  }

  // ---------------------------------------------------------------------
  // Combining hashes: sort.Strings, then concatenate, then hash

  /** Byte-wise lexicographic order, the order of `sort.Strings`. */
  predicate StrLe(a: string, b: string)
  {
    |a| == 0 || (|b| > 0 && (a[0] < b[0] || (a[0] == b[0] && StrLe(a[1..], b[1..]))))
  }

  lemma {:induction false} StrLeTotal(a: string, b: string)
    ensures StrLe(a, b) || StrLe(b, a)
  {
    if |a| > 0 && |b| > 0 && a[0] == b[0] {
      StrLeTotal(a[1..], b[1..]);
    }
  }

  lemma {:induction false} StrLeAntisymmetric(a: string, b: string)
    ensures StrLe(a, b) && StrLe(b, a) ==> a == b
  {
    if StrLe(a, b) && StrLe(b, a) && |a| > 0 {
      StrLeAntisymmetric(a[1..], b[1..]);
      assert a == [a[0]] + a[1..] && b == [b[0]] + b[1..];
    }
  }

  lemma {:induction false} StrLeTransitive(a: string, b: string, c: string)
    ensures StrLe(a, b) && StrLe(b, c) ==> StrLe(a, c)
  {
    if StrLe(a, b) && StrLe(b, c) && |a| > 0 && a[0] == b[0] && b[0] == c[0] {
      StrLeTransitive(a[1..], b[1..], c[1..]);
    }
  }

  /** Each string is at most the next one. */
  predicate Sorted(s: seq<string>)
  {
    forall i :: 0 < i < |s| ==> StrLe(s[i - 1], s[i])
  }

  /** In a sorted sequence the first element is at most every element. */
  lemma {:induction false} SortedHeadIsLeast(s: seq<string>, k: nat)
    requires Sorted(s) && k < |s|
    ensures StrLe(s[0], s[k])
  {
    if k == 0 {
      StrLeTotal(s[0], s[0]);
    } else {
      SortedHeadIsLeast(s, k - 1);
      StrLeTransitive(s[0], s[k - 1], s[k]);
    }
  }

  /** A sorted arrangement of a multiset is unique. */
  lemma {:induction false} SortedUnique(s: seq<string>, t: seq<string>)
    requires Sorted(s) && Sorted(t) && multiset(s) == multiset(t)
    ensures s == t
  {
    if |s| > 0 {
      SortedSameHead(s, t);
      SortedTail(s);
      SortedTail(t);
      SortedUnique(s[1..], t[1..]);
      assert s == [s[0]] + s[1..] && t == [t[0]] + t[1..];
    } else {
      assert |t| == |multiset(t)| == 0;
    }
  }

  /** Two sorted arrangements of one multiset start with the same string. */
  lemma SortedSameHead(s: seq<string>, t: seq<string>)
    requires Sorted(s) && Sorted(t) && multiset(s) == multiset(t) && |s| > 0
    ensures |t| > 0 && s[0] == t[0]
  {
    assert s[0] in multiset(t);
    assert |t| > 0;
    assert t[0] in multiset(s);
    var i :| 0 <= i < |t| && t[i] == s[0];
    var j :| 0 <= j < |s| && s[j] == t[0];
    SortedHeadIsLeast(t, i);
    SortedHeadIsLeast(s, j);
    StrLeAntisymmetric(s[0], t[0]);
  }

  /** Dropping the first string keeps the rest sorted, with that string removed. */
  lemma SortedTail(s: seq<string>)
    requires Sorted(s) && |s| > 0
    ensures Sorted(s[1..]) && multiset(s[1..]) == multiset(s) - multiset{s[0]}
  {
    assert s == [s[0]] + s[1..];
  }

  /** Places `x` before the first element it does not exceed. */
  function Insert(x: string, s: seq<string>): (r: seq<string>)
    requires Sorted(s)
    ensures Sorted(r) && multiset(r) == multiset(s) + multiset{x}
    ensures |r| > 0 && (r[0] == x || (|s| > 0 && r[0] == s[0]))
  {
    if s == [] || StrLe(x, s[0]) then [x] + s
    else
      StrLeTotal(x, s[0]);
      assert s == [s[0]] + s[1..];
      [s[0]] + Insert(x, s[1..])
  }

  /** `sort.Strings`: the sorted permutation of `s`. */
  function Sort(s: seq<string>): (r: seq<string>)
    ensures Sorted(r) && multiset(r) == multiset(s)
  {
    if s == [] then []
    else
      assert s == s[..|s| - 1] + [s[|s| - 1]];
      Insert(s[|s| - 1], Sort(s[..|s| - 1]))
  }

  /** Sorting forgets the order of the input. */
  lemma SortPermutationInvariant(s: seq<string>, t: seq<string>)
    requires multiset(s) == multiset(t)
    ensures Sort(s) == Sort(t)
  {
    SortedUnique(Sort(s), Sort(t));
  }

  /** The strings one after another, no separator. */
  function Concat(s: seq<string>): string
  {
    if s == [] then "" else Concat(s[..|s| - 1]) + s[|s| - 1]
  }

  lemma {:induction false} ConcatByteString(s: seq<string>)
    requires forall i :: 0 <= i < |s| ==> IsByteString(s[i])
    ensures IsByteString(Concat(s))
  {
    if s != [] {
      ConcatByteString(s[..|s| - 1]);
    }
  }

  /** Every element of a permutation of byte strings is a byte string. */
  lemma PermutationByteStrings(s: seq<string>, t: seq<string>)
    requires multiset(s) == multiset(t)
    requires forall i :: 0 <= i < |s| ==> IsByteString(s[i])
    ensures forall i :: 0 <= i < |t| ==> IsByteString(t[i])
  {
    forall i | 0 <= i < |t| ensures IsByteString(t[i]) {
      assert t[i] in multiset(s);
    }
  }

  /** What `GeneratHashFromFileNames` returns for `names`. */
  ghost function CombinedHash(names: seq<string>, digest: Bytes -> Digest): string
    requires forall i :: 0 <= i < |names| ==> IsByteString(names[i])
  {
    var sorted := Sort(names);
    PermutationByteStrings(names, sorted);
    ConcatByteString(sorted);
    HexDigest(digest(ToBytes(Concat(sorted))))
  }

  /** The combined hash depends only on the multiset of the inputs. */
  lemma CombinedHashPermutationInvariant(s: seq<string>, t: seq<string>, digest: Bytes -> Digest)
    requires multiset(s) == multiset(t)
    requires forall i :: 0 <= i < |s| ==> IsByteString(s[i])
    ensures forall i :: 0 <= i < |t| ==> IsByteString(t[i])
    ensures CombinedHash(s, digest) == CombinedHash(t, digest)
  {
    PermutationByteStrings(s, t);
    SortPermutationInvariant(s, t);
  }

  /** With no separator, different lists with the same concatenation collide. */
  lemma CombinedHashCollision(digest: Bytes -> Digest)
    ensures CombinedHash(["ab", "c"], digest) == CombinedHash(["a", "bc"], digest)
  {
    SortedConcatCollision();
  }

  lemma SortedConcatCollision()
    ensures Concat(Sort(["ab", "c"])) == "abc" == Concat(Sort(["a", "bc"]))
  {
    SortedConcatOf("ab", "c", "abc");
    SortedConcatOf("a", "bc", "abc");
  }

  lemma SortedConcatOf(x: string, y: string, xy: string)
    requires |x| > 0 && |y| > 0 && x[0] < y[0] && xy == x + y
    ensures Concat(Sort([x, y])) == xy
  {
    SortedConcatPair(x, y);
  }

  /** Two strings in order are concatenated in that order. */
  lemma SortedConcatPair(x: string, y: string)
    requires StrLe(x, y)
    ensures Concat(Sort([x, y])) == x + y
  {
    SortPair(x, y);
    ConcatPair(x, y);
  }

  lemma SortPair(x: string, y: string)
    requires StrLe(x, y)
    ensures Sort([x, y]) == [x, y]
  {
    var s := [x, y];
    assert s[..1] == [x] && [x][..0] == [];
    StrLeAntisymmetric(x, y);
  }

  lemma ConcatPair(x: string, y: string)
    ensures Concat([x, y]) == x + y
  {
    var s := [x, y];
    assert s[..1] == [x] && [x][..0] == [];
    assert Concat([x]) == Concat([]) + x == x;
  }

  /** `GeneratHashFromFileNames`: sorts the caller's slice in place, concatenates
      the sorted strings, and returns the hex digest of the result. */
  method GeneratHashFromFileNames(names: array<string>, digest: Bytes -> Digest) returns (h: string)
    requires forall i :: 0 <= i < names.Length ==> IsByteString(names[i])
    modifies names
    ensures names[..] == Sort(old(names[..]))
    ensures h == CombinedHash(old(names[..]), digest)
  {
    ghost var original := names[..];
    SortStrings(names);
    var combined := ConcatStrings(names);
    PermutationByteStrings(original, names[..]);
    ConcatByteString(names[..]);
    h := HexDigest(digest(ToBytes(combined)));
  }

  /** `sort.Strings`, in place. */
  method SortStrings(names: array<string>)
    modifies names
    ensures names[..] == Sort(old(names[..]))
  {
    var sorted := Sort(names[..]);
    assert |sorted| == |multiset(sorted)| == |multiset(names[..])| == names.Length;
    forall i | 0 <= i < names.Length {
      names[i] := sorted[i];
    }
    assert names[..] == sorted;
  }

  /** The concatenating loop: the strings one after another. */
  method ConcatStrings(names: array<string>) returns (combined: string)
    ensures combined == Concat(names[..])
  {
    combined := "";
    for i := 0 to names.Length
      invariant combined == Concat(names[..i])
    {
      assert names[..i + 1][..i] == names[..i];
      combined := combined + names[i];
    }
    assert names[..names.Length] == names[..];
  }
}
