/** Eight-bit values and the integers they stand for. */
module Octets {
  /** An integer in byte range survives the trip through `bv8`. */
  lemma ByteRoundTrip(x: int)
    requires 0 <= x < 256
    ensures (x as bv8) as int == x
  {
  }

  /** A byte is its high nibble times sixteen plus its low nibble. */
  lemma NibblesRoundTrip(x: bv8)
    ensures ((x as int / 16) * 16 + x as int % 16) as bv8 == x
  {
  }
}

/** Shared vocabulary of the workspace-synchronisation model: bytes, results,
    the decimal rendering of push numbers, push-range keys and paths. */
module Common {
  import Octets

  type byte = bv8
  type Bytes = seq<byte>

  datatype Option<T> = None | Some(value: T)

  datatype Result<T, E> = Ok(value: T) | Err(error: E)

  /** A path as its list of components; the root of whatever it is relative to is []. */
  type Path = seq<string>

  // ---------------------------------------------------------------------
  // Go strings as bytes. A Go string is a byte sequence; a Dafny string in
  // this model holds one char per byte.

  ghost predicate IsByteString(s: string)
  {
    forall i :: 0 <= i < |s| ==> s[i] as int < 256
  }

  /** The byte of one character of a byte string. */
  function ByteOf(c: char): (b: byte)
    requires c as int < 256
    ensures b as int == c as int
  {
    Octets.ByteRoundTrip(c as int);
    c as int as byte
  }

  /** `[]byte(s)`: the bytes of a string. */
  function ToBytes(s: string): (b: Bytes)
    requires IsByteString(s)
    ensures |b| == |s|
    ensures forall i :: 0 <= i < |s| ==> b[i] as int == s[i] as int
  {
    seq(|s|, i requires 0 <= i < |s| => ByteOf(s[i]))
  }

  /** `string(b)`: the string of a byte slice. */
  function FromBytes(b: Bytes): (s: string)
    ensures |s| == |b| && IsByteString(s)
    ensures forall i :: 0 <= i < |b| ==> s[i] as int == b[i] as int
  {
    seq(|b|, i requires 0 <= i < |b| => b[i] as int as char)
  }

  lemma FromBytesToBytes(s: string)
    requires IsByteString(s)
    ensures FromBytes(ToBytes(s)) == s
  {
    var t := FromBytes(ToBytes(s));
    forall i | 0 <= i < |s| ensures t[i] == s[i] {
      assert t[i] as int == s[i] as int;
    }
  }

  /** The bytes written for a string: one byte per character, the low
      eight bits of its code. For the ASCII texts of the protocol this is
      `[]byte(s)`. */
  function Wire(s: string): (b: Bytes)
    ensures |b| == |s|
    ensures IsByteString(s) ==> b == ToBytes(s)
  {
    seq(|s|, i requires 0 <= i < |s| => (s[i] as int % 256) as byte)
  }

  /** Text sent as bytes reads back as the same text. */
  lemma WireRoundTrip(s: string)
    requires IsByteString(s)
    ensures FromBytes(Wire(s)) == s
  {
    FromBytesToBytes(s);
  }

  /** Writing two strings one after the other writes their concatenation. */
  lemma WireAppend(a: string, b: string)
    ensures Wire(a + b) == Wire(a) + Wire(b)
  {
    assert forall i :: 0 <= i < |a| ==> (a + b)[i] == a[i];
    assert forall i :: |a| <= i < |a| + |b| ==> (a + b)[i] == b[i - |a|];
  }

  lemma ToBytesInjective(s: string, t: string)
    requires IsByteString(s) && IsByteString(t)
    ensures ToBytes(s) == ToBytes(t) ==> s == t
  {
    if ToBytes(s) == ToBytes(t) {
      FromBytesToBytes(s);
      FromBytesToBytes(t);
    }
  }

  // ---------------------------------------------------------------------
  // strconv.Itoa

  function DigitChar(d: nat): (c: char)
    requires d < 10
    ensures '0' <= c <= '9' && c as int - '0' as int == d
  {
    ('0' as int + d) as char
  }

  predicate IsDigits(s: string)
  {
    forall i :: 0 <= i < |s| ==> '0' <= s[i] <= '9'
  }

  /** Decimal rendering of a natural number, no leading zeros. */
  function NatToString(n: nat): (s: string)
    ensures |s| > 0 && IsDigits(s)
    ensures n < 10 <==> |s| == 1
  {
    if n < 10 then [DigitChar(n)] else NatToString(n / 10) + [DigitChar(n % 10)]
  }

  lemma {:induction false} NatToStringInjective(a: nat, b: nat)
    ensures NatToString(a) == NatToString(b) ==> a == b
  {
    if NatToString(a) == NatToString(b) {
      var s := NatToString(a);
      if a < 10 {
        assert s[0] as int - '0' as int == a;
        assert s[0] as int - '0' as int == b;
      } else {
        assert b >= 10;
        assert s[|s| - 1] as int - '0' as int == a % 10 == b % 10;
        assert NatToString(a / 10) == s[..|s| - 1] == NatToString(b / 10);
        NatToStringInjective(a / 10, b / 10);
      }
    }
  }

  /** `strconv.Itoa(n)`: a '-' sign before the digits of a negative number. */
  function IntToString(n: int): (s: string)
    ensures |s| > 0
    ensures n >= 0 ==> IsDigits(s)
    ensures n < 0 ==> s[0] == '-' && IsDigits(s[1..])
  {
    if n >= 0 then NatToString(n) else "-" + NatToString(-n)
  }

  lemma IntToStringInjective(a: int, b: int)
    ensures IntToString(a) == IntToString(b) ==> a == b
  {
    if IntToString(a) == IntToString(b) {
      var s := IntToString(a);
      assert a < 0 <==> s[0] == '-';
      assert b < 0 <==> s[0] == '-';
      if a >= 0 {
        NatToStringInjective(a, b);
      } else {
        assert NatToString(-a) == s[1..] == NatToString(-b);
        NatToStringInjective(-a, -b);
      }
    }
  }

  // ---------------------------------------------------------------------
  // Push ranges

  /** The cache key of a push range `a-b` (handler/handler.go:178). */
  function RangeKey(a: int, b: int): string
  {
    IntToString(a) + "-" + IntToString(b)
  }

  /** The first '-' of a range key with a non-negative start ends the start. */
  lemma RangeKeyDash(a: int, b: int)
    requires 0 <= a
    ensures IndexOf(RangeKey(a, b), '-') == Some(|IntToString(a)|)
  {
    var s, k := IntToString(a), RangeKey(a, b);
    assert k[..|s|] == s;
    IndexOfAt(k, '-', |s|);
  }

  /** Two push ranges with non-negative ends have the same key only if they are the same range. */
  lemma RangeKeyInjective(a: int, b: int, c: int, d: int)
    requires 0 <= a && 0 <= c
    ensures RangeKey(a, b) == RangeKey(c, d) ==> a == c && b == d
  {
    var s, t := IntToString(a), IntToString(c);
    if RangeKey(a, b) == RangeKey(c, d) {
      var k := RangeKey(a, b);
      RangeKeyDash(a, b);
      RangeKeyDash(c, d);
      assert |s| == |t|;
      assert s == k[..|s|] == t;
      assert IntToString(b) == k[|s| + 1..] == IntToString(d);
      IntToStringInjective(a, c);
      IntToStringInjective(b, d);
    }
  }

  /** A clone's key (the push number alone) never collides with a range key. */
  lemma CloneKeyIsNotRangeKey(n: int, a: int, b: int)
    requires 0 <= n && 0 <= a
    ensures IntToString(n) != RangeKey(a, b)
  {
    var k := RangeKey(a, b);
    assert k[|IntToString(a)|] == '-';
    assert !IsDigits(k);
  }

  // ---------------------------------------------------------------------
  // Text helpers

  predicate HasPrefix(s: string, p: string)
  {
    |p| <= |s| && s[..|p|] == p
  }

  /** Index of the first occurrence of `c` in `s`. */
  function IndexOf(s: string, c: char): (r: Option<nat>)
    ensures r.Some? ==> r.value < |s| && s[r.value] == c && c !in s[..r.value]
    ensures r.None? ==> c !in s
  {
    if |s| == 0 then None
    else if s[0] == c then Some(0)
    else match IndexOf(s[1..], c)
      case None => None
      case Some(i) => assert s[1..][..i] == s[1..i + 1]; Some(i + 1)
  }

  /** A position holding `c` with no `c` before it is the first occurrence. */
  lemma {:induction false} IndexOfAt(s: string, c: char, i: nat)
    requires i < |s| && s[i] == c && c !in s[..i]
    ensures IndexOf(s, c) == Some(i)
  {
    if i > 0 {
      assert s[0] in s[..i];
      var t := s[1..];
      forall j | 0 <= j < i - 1 ensures t[j] != c {
        assert t[j] == s[..i][j + 1];
      }
      assert c !in t[..i - 1];
      IndexOfAt(t, c, i - 1);
    }
  }

  // ---------------------------------------------------------------------
  // First match

  /** Index of the first element `matches` accepts. */
  function FirstIndex<T>(s: seq<T>, matches: T -> bool): (r: Option<nat>)
    ensures r.Some? ==> r.value < |s| && matches(s[r.value]) && forall j :: 0 <= j < r.value ==> !matches(s[j])
    ensures r.None? ==> forall j :: 0 <= j < |s| ==> !matches(s[j])
  {
    if s == [] then None
    else if matches(s[0]) then Some(0)
    else match FirstIndex(s[1..], matches)
      case None => None
      case Some(i) => assert forall j :: 1 <= j <= i ==> s[j] == s[1..][j - 1]; Some(i + 1)
  }

  /** Entries after the first match do not change which entry is found. */
  lemma FirstIndexIgnoresLater<T>(s: seq<T>, t: seq<T>, matches: T -> bool)
    requires FirstIndex(s, matches).Some?
    ensures FirstIndex(s + t, matches) == FirstIndex(s, matches)
  {
    var i := FirstIndex(s, matches).value;
    assert (s + t)[i] == s[i];
    forall j | 0 <= j < i ensures !matches((s + t)[j]) {
      assert (s + t)[j] == s[j];
    }
  }

  // ---------------------------------------------------------------------
  // Paths

  predicate IsSeparator(c: char) { c == '/' || c == '\\' }

  /** A component as it appears in a path built by this model: non-empty, no separator. */
  predicate IsComponent(c: string)
  {
    |c| > 0 && forall i :: 0 <= i < |c| ==> !IsSeparator(c[i])
  }

  predicate IsCleanPath(p: Path)
  {
    forall i :: 0 <= i < |p| ==> IsComponent(p[i])
  }

  /** The string of a relative path, components joined by '/' (the Linux separator). */
  function JoinPath(p: Path): string
  {
    if |p| == 0 then ""
    else if |p| == 1 then p[0]
    else p[0] + "/" + JoinPath(p[1..])
  }

  /** Splits a path string into its components; both '/' and '\\' separate
      (each is turned into the platform separator before use), and empty
      components vanish as filepath.Join would make them. */
  function SplitPath(s: string): (p: Path)
    ensures IsCleanPath(p)
  {
    SplitFrom(s, "")
  }

  /** Splits `s`, the component read so far being `cur`. */
  function SplitFrom(s: string, cur: string): (p: Path)
    requires forall i :: 0 <= i < |cur| ==> !IsSeparator(cur[i])
    ensures IsCleanPath(p)
    decreases |s|
  {
    if |s| == 0 then (if cur == "" then [] else [cur])
    else if IsSeparator(s[0]) then (if cur == "" then [] else [cur]) + SplitFrom(s[1..], "")
    else SplitFrom(s[1..], cur + [s[0]])
  }

  lemma {:induction false} SplitFromComponent(c: string, rest: string, cur: string)
    requires forall i :: 0 <= i < |cur| ==> !IsSeparator(cur[i])
    requires forall i :: 0 <= i < |c| ==> !IsSeparator(c[i])
    requires |cur + c| > 0
    ensures SplitFrom(c, cur) == [cur + c]
    ensures SplitFrom(c + "/" + rest, cur) == [cur + c] + SplitFrom(rest, "")
    decreases |c|
  {
    if |c| == 0 {
      assert c + "/" + rest == "/" + rest;
      assert ("/" + rest)[1..] == rest;
      assert cur + c == cur;
    } else {
      assert (c + "/" + rest)[0] == c[0];
      assert (c + "/" + rest)[1..] == c[1..] + "/" + rest;
      assert cur + c == (cur + [c[0]]) + c[1..];
      SplitFromComponent(c[1..], rest, cur + [c[0]]);
    }
  }

  /** Splitting the joined string of a clean path gives the path back. */
  lemma {:induction false} SplitJoin(p: Path)
    requires IsCleanPath(p)
    ensures SplitPath(JoinPath(p)) == p
  {
    if |p| == 0 {
    } else if |p| == 1 {
      SplitFromComponent(p[0], "", "");
      assert "" + p[0] == p[0];
    } else {
      SplitFromComponent(p[0], JoinPath(p[1..]), "");
      assert "" + p[0] == p[0];
      SplitJoin(p[1..]);
      assert p == [p[0]] + p[1..];
    }
  }

  /** `a` is a proper ancestor of `b`. */
  predicate IsStrictPrefix(a: Path, b: Path)
  {
    |a| < |b| && b[..|a|] == a
  }

  /** The directory holding `p`. */
  function Parent(p: Path): Path
    requires |p| > 0
  {
    p[..|p| - 1]
  }
}
