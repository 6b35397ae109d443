/** The Python string operations the core relies on, restricted to ASCII:
    `str.strip()`, `str.upper()`, `in`, `str.split(sep)`, `sep.join(parts)`,
    `str.replace(c, "")`, slicing `s[:n]` and decimal formatting of integers. */
module Text {
  import opened Wrappers

  /** Python's `str.isspace()` on ASCII: tab, line feed, vertical tab, form
      feed, carriage return, the four separators 0x1C-0x1F, and space. */
  predicate IsSpace(c: char)
  {
    (9 <= c as int <= 13) || (28 <= c as int <= 32)
  }

  /** Drops leading whitespace. */
  function TrimStart(s: string): (r: string)
    ensures |r| <= |s|
    ensures r == [] || !IsSpace(r[0])
  {
    if s != [] && IsSpace(s[0]) then TrimStart(s[1..]) else s
  }

  /** `TrimStart(s)` is the suffix of `s` left after its leading whitespace. */
  lemma {:induction false} TrimStartSuffix(s: string)
    ensures var r := TrimStart(s);
      && (forall i :: 0 <= i < |r| ==> r[i] == s[|s| - |r| + i])
      && (forall i :: 0 <= i < |s| - |r| ==> IsSpace(s[i]))
  {
    if s != [] && IsSpace(s[0]) {
      TrimStartSuffix(s[1..]);
      var r := TrimStart(s);
      assert r == TrimStart(s[1..]);
      forall i | 0 <= i < |r| ensures r[i] == s[|s| - |r| + i] {
        assert s[1..][|s[1..]| - |r| + i] == s[|s| - |r| + i];
      }
    }
  }

  /** Drops trailing whitespace. */
  function TrimEnd(s: string): (r: string)
    ensures |r| <= |s|
    ensures r == [] || !IsSpace(r[|r| - 1])
  {
    if s != [] && IsSpace(s[|s| - 1]) then TrimEnd(s[..|s| - 1]) else s
  }

  /** `TrimEnd(s)` is the prefix of `s` left before its trailing whitespace. */
  lemma {:induction false} TrimEndPrefix(s: string)
    ensures var r := TrimEnd(s);
      && (forall i :: 0 <= i < |r| ==> r[i] == s[i])
      && (forall i :: |r| <= i < |s| ==> IsSpace(s[i]))
  {
    if s != [] && IsSpace(s[|s| - 1]) {
      TrimEndPrefix(s[..|s| - 1]);
    }
  }

  /** `s.strip()`: the slice of `s` between its leading and its trailing
      whitespace. */
  function Strip(s: string): (r: string)
    ensures |r| <= |s|
    ensures r == [] || (!IsSpace(r[0]) && !IsSpace(r[|r| - 1]))
    ensures r == [] <==> forall i :: 0 <= i < |s| ==> IsSpace(s[i])
    ensures (s == [] || (!IsSpace(s[0]) && !IsSpace(s[|s| - 1]))) ==> r == s
  {
    TrimEndPrefix(TrimStart(s));
    TrimBothEmpty(s);
    TrimBothClean(s);
    TrimEnd(TrimStart(s))
  }

  /** A string without whitespace at either end is left as it is. */
  lemma TrimBothClean(s: string)
    ensures s == [] || (!IsSpace(s[0]) && !IsSpace(s[|s| - 1])) ==> TrimEnd(TrimStart(s)) == s
  {
    if s == [] || (!IsSpace(s[0]) && !IsSpace(s[|s| - 1])) {
      assert TrimStart(s) == s;
    }
  }

  /** Trimming both ends leaves nothing exactly when every character is
      whitespace. */
  lemma TrimBothEmpty(s: string)
    ensures TrimEnd(TrimStart(s)) == [] <==> forall i :: 0 <= i < |s| ==> IsSpace(s[i])
  {
    var t := TrimStart(s);
    TrimStartSuffix(s);
    TrimEndPrefix(t);
    if TrimEnd(t) != [] {
      assert s[|s| - |t|] == t[0];
    }
  }

  /** Every character of `Strip(s)` is a character of `s`. */
  lemma StripKeepsOnly(s: string, c: char)
    requires c !in s
    ensures c !in Strip(s)
  {
    var t := TrimStart(s);
    TrimStartSlice(s);
    assert c !in t;
    var r := TrimEnd(t);
    TrimEndSlice(t);
  }

  lemma {:induction false} TrimStartSlice(s: string)
    ensures TrimStart(s) == s[|s| - |TrimStart(s)|..]
  {
    if s != [] && IsSpace(s[0]) {
      TrimStartSlice(s[1..]);
      assert s[1..][|s| - 1 - |TrimStart(s[1..])|..] == s[|s| - |TrimStart(s)|..];
    }
  }

  lemma {:induction false} TrimEndSlice(s: string)
    ensures TrimEnd(s) == s[..|TrimEnd(s)|]
  {
    if s != [] && IsSpace(s[|s| - 1]) {
      TrimEndSlice(s[..|s| - 1]);
    }
  }

  /** `Strip(s)` is the slice `s[a..b]` with only whitespace before `a` and
      after `b`. */
  lemma StripSlice(s: string) returns (a: nat, b: nat)
    ensures a <= b <= |s| && Strip(s) == s[a..b]
    ensures forall i :: 0 <= i < a ==> IsSpace(s[i])
    ensures forall i :: b <= i < |s| ==> IsSpace(s[i])
  {
    var t := TrimStart(s);
    TrimStartSlice(s);
    TrimStartSuffix(s);
    TrimEndSlice(t);
    TrimEndPrefix(t);
    a := |s| - |t|;
    b := a + |TrimEnd(t)|;
    assert t == s[a..];
    forall i | b <= i < |s| ensures IsSpace(s[i]) {
      assert s[i] == t[i - a];
    }
  }

  function UpperChar(c: char): char
  {
    if 'a' <= c <= 'z' then (c as int - 32) as char else c
  }

  /** `s.upper()`: ASCII lower-case letters mapped, everything else kept. */
  function Upper(s: string): (r: string)
    ensures |r| == |s|
    ensures forall i :: 0 <= i < |s| ==> r[i] == UpperChar(s[i])
  {
    if s == [] then [] else [UpperChar(s[0])] + Upper(s[1..])
  }

  predicate StartsWith(s: string, prefix: string)
  {
    |prefix| <= |s| && s[..|prefix|] == prefix
  }

  /** Python's `sub in s`. */
  predicate Contains(s: string, sub: string)
  {
    StartsWith(s, sub) || (s != [] && Contains(s[1..], sub))
  }

  /** `sub` occurs in `s` starting at position `i`. */
  predicate OccursAt(s: string, sub: string, i: nat)
  {
    i + |sub| <= |s| && s[i..i + |sub|] == sub
  }

  lemma OccursShift(s: string, sub: string, i: nat)
    requires 1 <= i && s != []
    ensures OccursAt(s, sub, i) <==> OccursAt(s[1..], sub, i - 1)
  {
    if i + |sub| <= |s| {
      var a, b := s[i..i + |sub|], s[1..][i - 1..i - 1 + |sub|];
      forall j | 0 <= j < |sub| ensures a[j] == b[j] {
        assert a[j] == s[i + j] && b[j] == s[1..][i - 1 + j];
      }
      assert a == b;
    }
  }

  /** `sub in s` holds exactly when `sub` occurs at some position of `s`. */
  lemma {:induction false} ContainsAt(s: string, sub: string, i: nat)
    requires OccursAt(s, sub, i)
    ensures Contains(s, sub)
  {
    if i > 0 {
      assert s[1..][i - 1..i - 1 + |sub|] == sub;
      ContainsAt(s[1..], sub, i - 1);
    } else {
      assert s[..|sub|] == sub;
    }
  }

  lemma {:induction false} ContainsWitness(s: string, sub: string) returns (i: nat)
    requires Contains(s, sub)
    ensures OccursAt(s, sub, i)
  {
    if StartsWith(s, sub) {
      i := 0;
    } else {
      var k := ContainsWitness(s[1..], sub);
      assert s[1..][k..k + |sub|] == s[k + 1..k + 1 + |sub|];
      i := k + 1;
    }
  }

  /** A string containing `mid` contains everything `mid` contains. */
  lemma ContainsTrans(s: string, mid: string, sub: string)
    requires Contains(s, mid) && Contains(mid, sub)
    ensures Contains(s, sub)
  {
    var i := ContainsWitness(s, mid);
    var j := ContainsWitness(mid, sub);
    forall k | 0 <= k < |sub| ensures s[i + j + k] == sub[k] {
      assert sub[k] == mid[j + k];
      assert mid[j + k] == s[i..i + |mid|][j + k];
    }
    assert s[i + j..i + j + |sub|] == sub;
    ContainsAt(s, sub, i + j);
  }

  /** The first position at which `sep` occurs in `s` (Python's `s.find(sep)`). */
  function Find(s: string, sep: string): (r: Option<nat>)
    requires sep != []
    ensures r.Some? ==> OccursAt(s, sep, r.value)
    ensures forall i: nat :: (r.None? || i < r.value) ==> !OccursAt(s, sep, i)
    decreases |s|
  {
    if |s| < |sep| then None
    else if s[..|sep|] == sep then Some(0)
    else
      var rest := Find(s[1..], sep);
      assert forall i: nat :: 1 <= i ==> (OccursAt(s, sep, i) <==> OccursAt(s[1..], sep, i - 1)) by {
        forall i: nat | 1 <= i ensures OccursAt(s, sep, i) <==> OccursAt(s[1..], sep, i - 1) { OccursShift(s, sep, i); }
      }
      assert !OccursAt(s, sep, 0);
      match rest
      case None => None
      case Some(k) => Some(k + 1)
  }

  /** `s` without `sep` has no position at which `sep` is found. */
  lemma {:induction false} FindAbsent(s: string, sep: string)
    requires sep != [] && !Contains(s, sep)
    ensures Find(s, sep) == None
  {
    if |s| >= |sep| {
      FindAbsent(s[1..], sep);
    }
  }

  /** `sep.join(parts)`. */
  function Join(parts: seq<string>, sep: string): string
  {
    if |parts| == 0 then ""
    else if |parts| == 1 then parts[0]
    else parts[0] + sep + Join(parts[1..], sep)
  }

  /** `s.split(sep)` for a non-empty separator: cut at every occurrence of
      `sep`, scanning from the left. Joining the pieces back gives `s`. */
  function Split(s: string, sep: string): (r: seq<string>)
    requires sep != []
    ensures |r| >= 1
    ensures Join(r, sep) == s
    decreases |s|
  {
    match Find(s, sep)
    case None => [s]
    case Some(i) =>
      var rest := Split(s[i + |sep|..], sep);
      assert s == s[..i] + sep + s[i + |sep|..];
      [s[..i]] + rest
  }

  /** When `find` gives nothing, `sep` does not occur. */
  lemma FindNoneAbsent(s: string, sep: string)
    requires sep != [] && Find(s, sep).None?
    ensures !Contains(s, sep)
  {
    if Contains(s, sep) {
      var j := ContainsWitness(s, sep);
    }
  }

  /** `sep` does not occur before the position `find` gives. */
  lemma FindBeforeAbsent(s: string, sep: string, i: nat)
    requires sep != [] && Find(s, sep) == Some(i)
    ensures i <= |s| && !Contains(s[..i], sep)
  {
    var t := s[..i];
    forall j: nat | j + |sep| <= |t| ensures !OccursAt(t, sep, j) {
      assert t[j..j + |sep|] == s[j..j + |sep|];
      assert !OccursAt(s, sep, j);
    }
    NoOccurrenceAbsent(t, sep);
  }

  /** A string with no position at which `sub` occurs does not contain it. */
  lemma {:induction false} NoOccurrenceAbsent(s: string, sub: string)
    requires forall j: nat :: !OccursAt(s, sub, j)
    ensures !Contains(s, sub)
  {
    assert !OccursAt(s, sub, 0);
    if s != [] {
      forall j: nat ensures !OccursAt(s[1..], sub, j) {
        assert !OccursAt(s, sub, j + 1);
        if j + |sub| <= |s[1..]| {
          assert s[1..][j..j + |sub|] == s[j + 1..j + 1 + |sub|];
        }
      }
      NoOccurrenceAbsent(s[1..], sub);
    }
  }

  /** The separator occurs in no piece: `split` cuts at every occurrence. */
  lemma {:induction false} SplitNoSep(s: string, sep: string)
    requires sep != []
    ensures forall k :: 0 <= k < |Split(s, sep)| ==> !Contains(Split(s, sep)[k], sep)
    decreases |s|
  {
    var r := Split(s, sep);
    var f := Find(s, sep);
    if f.None? {
      FindNoneAbsent(s, sep);
      assert r == [s];
    } else {
      var i := f.value;
      var rest := s[i + |sep|..];
      SplitNoSep(rest, sep);
      FindBeforeAbsent(s, sep, i);
      var tail := Split(rest, sep);
      assert r == [s[..i]] + tail;
      forall k | 0 <= k < |r| ensures !Contains(r[k], sep) {
        if k > 0 { assert r[k] == tail[k - 1]; }
      }
    }
  }

  /** A string in which `sep` does not occur splits into itself alone. */
  lemma SplitAbsent(s: string, sep: string)
    requires sep != [] && !Contains(s, sep)
    ensures Split(s, sep) == [s]
  {
    FindAbsent(s, sep);
  }

  /** Splitting cuts at the leftmost occurrence of `sep`: the first piece is
      the text before it and the remaining pieces are the split of the text
      after it. With `SplitAbsent` this fixes every piece. */
  lemma SplitAtFirst(s: string, sep: string, i: nat)
    requires sep != [] && OccursAt(s, sep, i)
    requires forall j: nat :: j < i ==> !OccursAt(s, sep, j)
    ensures Split(s, sep) == [s[..i]] + Split(s[i + |sep|..], sep)
  {
    match Find(s, sep)
    case Some(j) =>
      assert !(i < j);
      assert j == i;
  }

  /** The first line of `s`: Python's `s.split("\n")[0]`. It is a prefix of
      `s` and holds no line feed. */
  function FirstLine(s: string): (r: string)
    ensures StartsWith(s, r)
    ensures '\n' !in r
    ensures r == s || (|r| < |s| && s[|r|] == '\n')
  {
    match Find(s, "\n")
    case None =>
      assert forall i :: 0 <= i < |s| ==> s[i] != '\n' by {
        forall i | 0 <= i < |s| ensures s[i] != '\n' { assert !OccursAt(s, "\n", i); assert s[i..i + 1] == [s[i]]; }
      }
      s
    case Some(i) =>
      assert forall k :: 0 <= k < i ==> s[k] != '\n' by {
        forall k | 0 <= k < i ensures s[k] != '\n' { assert !OccursAt(s, "\n", k); assert s[k..k + 1] == [s[k]]; }
      }
      s[..i]
  }

  /** `s.replace(c, "")` for a one-character `c`. */
  function RemoveAll(s: string, c: char): (r: string)
    ensures c !in r
    ensures forall x :: x in r <==> x in s && x != c
    ensures |r| <= |s|
  {
    if s == [] then []
    else (if s[0] == c then [] else [s[0]]) + RemoveAll(s[1..], c)
  }

  /** Removing `c` from a concatenation removes it from each part, in order. */
  lemma {:induction false} RemoveAllAppend(a: string, b: string, c: char)
    ensures RemoveAll(a + b, c) == RemoveAll(a, c) + RemoveAll(b, c)
    decreases |a|
  {
    if a != [] {
      assert (a + b)[1..] == a[1..] + b;
      RemoveAllAppend(a[1..], b, c);
    } else {
      assert a + b == b;
    }
  }

  /** A single character is dropped when it is `c` and kept otherwise. */
  lemma RemoveAllChar(x: char, c: char)
    ensures RemoveAll([x], c) == if x == c then [] else [x]
  {
    assert [x][1..] == [];
  }

  /** `s.replace(c, "")` keeps every other character, in order: it is `s`
      itself when `c` does not occur. */
  lemma {:induction false} RemoveAllAbsent(s: string, c: char)
    requires c !in s
    ensures RemoveAll(s, c) == s
  {
    if s != [] {
      assert c !in s[1..];
      RemoveAllAbsent(s[1..], c);
    }
  }

  /** Python slicing `s[:n]` for `n >= 0`. */
  function Take<T>(s: seq<T>, n: nat): (r: seq<T>)
    ensures |r| == Min(|s|, n)
    ensures r == s[..|r|]
  {
    if |s| <= n then s else s[..n]
  }

  function DigitChar(d: nat): char
    requires d < 10
  {
    ('0' as int + d) as char
  }

  /** `str(n)` for a natural number: its decimal digits, most significant first,
      with no leading zero. */
  function NatToString(n: nat): (r: string)
    ensures r != []
    ensures forall i :: 0 <= i < |r| ==> '0' <= r[i] <= '9'
    ensures |r| > 1 ==> r[0] != '0'
    decreases n
  {
    if n < 10 then [DigitChar(n)] else NatToString(n / 10) + [DigitChar(n % 10)]
  }

  /** Reads back a string of decimal digits. */
  function ParseDigits(s: string): nat
    requires forall i :: 0 <= i < |s| ==> '0' <= s[i] <= '9'
  {
    if s == [] then 0
    else ParseDigits(s[..|s| - 1]) * 10 + (s[|s| - 1] as int - '0' as int)
  }

  /** Decimal formatting loses nothing: the digits read back as the number. */
  lemma {:induction false} NatToStringRoundTrip(n: nat)
    ensures ParseDigits(NatToString(n)) == n
  {
    if n >= 10 {
      NatToStringRoundTrip(n / 10);
      var s := NatToString(n);
      assert s[..|s| - 1] == NatToString(n / 10);
    }
  }
}
