/** The PHP built-ins and framework string helpers the certificate code relies
    on (`explode`, `str_replace`, `trim`, `substr`, `substr_count`,
    `starts_with`, `ends_with`, `str_contains`), and `implode` as the
    reference inverse of `explode` that the round-trip properties use. PHP strings are byte strings:
    a `string` here holds one character per byte, so a multi-byte UTF-8
    character is written as its bytes. */
module PhpStrings {
  import opened Wrappers

  /** `sep` occurs in `s` at index `i`. */
  predicate OccursAt(s: string, sep: string, i: nat) {
    i + |sep| <= |s| && s[i..i + |sep|] == sep
  }

  /** `sep` occurs somewhere in `s`. */
  ghost predicate Occurs(s: string, sep: string) {
    exists i: nat :: OccursAt(s, sep, i)
  }

  /** The first occurrence of `sep` in `s` at or after index `k`. */
  function FindFrom(s: string, sep: string, k: nat): (r: Option<nat>)
    ensures r.Some? ==> k <= r.value && OccursAt(s, sep, r.value)
    ensures forall i: nat :: k <= i && (r.None? || i < r.value) ==> !OccursAt(s, sep, i)
    decreases |s| - k
  {
    if k + |sep| > |s| then None
    else if s[k..k + |sep|] == sep then Some(k)
    else FindFrom(s, sep, k + 1)
  }

  /** The first occurrence of `sep` in `s` (`strpos`). */
  function Find(s: string, sep: string): (r: Option<nat>)
    ensures r.Some? ==> OccursAt(s, sep, r.value)
    ensures r.Some? ==> forall i: nat :: i < r.value ==> !OccursAt(s, sep, i)
    ensures r.None? <==> !Occurs(s, sep)
  {
    FindFrom(s, sep, 0)
  }

  /** `explode(sep, s)`: the pieces of `s` between successive, non-overlapping
      occurrences of `sep`, scanned left to right. PHP refuses an empty
      separator. */
  function Split(s: string, sep: string): (parts: seq<string>)
    requires |sep| > 0
    ensures |parts| >= 1
    ensures |parts| == 1 <==> !Occurs(s, sep)
    decreases |s|
  {
    match Find(s, sep)
    case None => [s]
    case Some(i) => [s[..i]] + Split(s[i + |sep|..], sep)
  }

  /** `implode(sep, parts)`. */
  function Join(parts: seq<string>, sep: string): string {
    if |parts| == 0 then ""
    else if |parts| == 1 then parts[0]
    else parts[0] + sep + Join(parts[1..], sep)
  }

  /** No non-empty proper prefix of `sep` is also a suffix of it, so two
      occurrences of `sep` can never overlap. */
  ghost predicate BorderFree(sep: string) {
    forall k :: 0 < k < |sep| ==> sep[..k] != sep[|sep| - k..]
  }

  /** The number of positions at or after `k` where `sep` occurs in `s`,
      overlapping occurrences included. */
  function OccurrencesFrom(s: string, sep: string, k: nat): nat
    decreases |s| + 1 - k
  {
    if k + |sep| > |s| then 0
    else (if OccursAt(s, sep, k) then 1 else 0) + OccurrencesFrom(s, sep, k + 1)
  }

  /** The number of positions where `sep` occurs in `s`. */
  function OccurrenceCount(s: string, sep: string): nat {
    OccurrencesFrom(s, sep, 0)
  }

  /** Two occurrences of a border-free separator never overlap. */
  lemma NoOverlap(s: string, sep: string, i: nat, j: nat)
    requires BorderFree(sep)
    requires OccursAt(s, sep, i) && i < j < i + |sep|
    ensures !OccursAt(s, sep, j)
  {
    if j + |sep| <= |s| {
      var k := i + |sep| - j;
      assert s[j..j + |sep|][..k] == s[i..i + |sep|][j - i..];
      assert sep[..k] != sep[|sep| - k..];
    }
  }

  /** Positions without an occurrence add nothing to the count. */
  lemma {:induction false} OccurrencesSkip(s: string, sep: string, k: nat, j: nat)
    requires k <= j
    requires forall i: nat :: k <= i < j ==> !OccursAt(s, sep, i)
    ensures OccurrencesFrom(s, sep, k) == OccurrencesFrom(s, sep, j)
    decreases j - k
  {
    if k < j && k + |sep| <= |s| {
      OccurrencesSkip(s, sep, k + 1, j);
    } else if k < j {
      OccurrencesBeyond(s, sep, j);
    }
  }

  /** No occurrence starts so late that it would run past the end. */
  lemma {:induction false} OccurrencesBeyond(s: string, sep: string, k: nat)
    requires k + |sep| > |s|
    ensures OccurrencesFrom(s, sep, k) == 0
  {
  }

  /** Counting in a suffix is counting in the whole text from the suffix on. */
  lemma {:induction false} OccurrencesShift(s: string, sep: string, m: nat, k: nat)
    requires m <= |s|
    ensures OccurrencesFrom(s, sep, m + k) == OccurrencesFrom(s[m..], sep, k)
    decreases |s| + 1 - (m + k)
  {
    if m + k + |sep| <= |s| {
      assert s[m..][k..k + |sep|] == s[m + k..m + k + |sep|];
      OccurrencesShift(s, sep, m, k + 1);
    }
  }

  /** After an occurrence of a border-free separator, the next one starts
      no earlier than its end. */
  lemma NoneInside(s: string, sep: string, i: nat)
    requires BorderFree(sep)
    requires OccursAt(s, sep, i)
    ensures forall j: nat :: i + 1 <= j < i + |sep| ==> !OccursAt(s, sep, j)
  {
    forall j: nat | i + 1 <= j < i + |sep|
      ensures !OccursAt(s, sep, j)
    {
      NoOverlap(s, sep, i, j);
    }
  }

  /** An occurrence counts once, and the count goes on after its end. */
  lemma CountFromOccurrence(s: string, sep: string, i: nat)
    requires |sep| > 0 && BorderFree(sep)
    requires OccursAt(s, sep, i)
    ensures OccurrencesFrom(s, sep, i) == 1 + OccurrencesFrom(s[i + |sep|..], sep, 0)
  {
    assert OccurrencesFrom(s, sep, i) == 1 + OccurrencesFrom(s, sep, i + 1);
    NoneInside(s, sep, i);
    OccurrencesSkip(s, sep, i + 1, i + |sep|);
    OccurrencesShift(s, sep, i + |sep|, 0);
  }

  /** The first occurrence counts once, and the count goes on after it. */
  lemma CountAfterFirst(s: string, sep: string, i: nat)
    requires |sep| > 0 && BorderFree(sep)
    requires OccursAt(s, sep, i)
    requires forall j: nat :: j < i ==> !OccursAt(s, sep, j)
    ensures OccurrenceCount(s, sep) == 1 + OccurrenceCount(s[i + |sep|..], sep)
  {
    OccurrencesSkip(s, sep, 0, i);
    CountFromOccurrence(s, sep, i);
  }

  /** Without an occurrence there is nothing to count. */
  lemma CountWithoutOccurrence(s: string, sep: string)
    requires |sep| > 0
    requires !Occurs(s, sep)
    ensures OccurrenceCount(s, sep) == 0
  {
    OccurrencesSkip(s, sep, 0, |s|);
    OccurrencesBeyond(s, sep, |s|);
  }

  /** `explode` with a border-free separator yields one piece more than the
      separator has occurrences. */
  lemma {:induction false} SplitCount(s: string, sep: string)
    requires |sep| > 0 && BorderFree(sep)
    ensures |Split(s, sep)| == 1 + OccurrenceCount(s, sep)
    decreases |s|
  {
    match Find(s, sep)
    case None =>
      CountWithoutOccurrence(s, sep);
    case Some(i) =>
      CountAfterFirst(s, sep, i);
      SplitCount(s[i + |sep|..], sep);
  }

  /** A separator whose first character does not recur is border-free. */
  lemma FirstCharUniqueIsBorderFree(sep: string)
    requires |sep| > 0
    requires forall j :: 0 < j < |sep| ==> sep[j] != sep[0]
    ensures BorderFree(sep)
  {
    forall k | 0 < k < |sep|
      ensures sep[..k] != sep[|sep| - k..]
    {
      assert sep[..k][0] == sep[0];
      assert sep[|sep| - k..][0] == sep[|sep| - k];
    }
  }

  /** When `p` is free of a border-free `sep`, the first occurrence of `sep`
      in `p + sep + t` is the one right after `p`. */
  lemma NoEarlierOccurrence(p: string, sep: string, t: string, i: nat)
    requires BorderFree(sep)
    requires !Occurs(p, sep)
    requires i < |p|
    ensures !OccursAt(p + sep + t, sep, i)
  {
    var x := p + sep + t;
    if i + |sep| <= |p| {
      assert x[i..i + |sep|] == p[i..i + |sep|];
      assert !OccursAt(p, sep, i);
    } else if i + |sep| <= |x| {
      var k := i + |sep| - |p|;
      assert 0 < k < |sep|;
      assert x[|p|..|p| + k] == sep[..k];
      assert x[|p|..|p| + k] == x[i..i + |sep|][|sep| - k..];
      assert x[i..i + |sep|][|sep| - k..] != sep[|sep| - k..];
    }
  }

  /** A text without the separator's first character holds no occurrence. */
  lemma AbsentFirstChar(s: string, sep: string)
    requires |sep| > 0 && sep[0] !in s
    ensures !Occurs(s, sep)
  {
    forall i: nat
      ensures !OccursAt(s, sep, i)
    {
      if i + |sep| <= |s| {
        assert s[i..i + |sep|][0] == s[i];
      }
    }
  }

  /** Gluing a text that lacks the separator's first character in front of a
      separator-free text creates no occurrence. */
  lemma NoOccurrenceInConcat(a: string, b: string, sep: string)
    requires |sep| > 0 && sep[0] !in a
    requires !Occurs(b, sep)
    ensures !Occurs(a + b, sep)
  {
    var x := a + b;
    forall i: nat
      ensures !OccursAt(x, sep, i)
    {
      if i + |sep| <= |x| {
        if i < |a| {
          assert x[i..i + |sep|][0] == a[i];
        } else {
          assert x[i..i + |sep|] == b[i - |a|..i - |a| + |sep|];
          assert !OccursAt(b, sep, i - |a|);
        }
      }
    }
  }

  /** `explode` undoes `implode` when no piece contains the (border-free)
      separator. */
  lemma {:induction false} SplitJoin(parts: seq<string>, sep: string)
    requires |sep| > 0 && BorderFree(sep)
    requires |parts| > 0
    requires forall k :: 0 <= k < |parts| ==> !Occurs(parts[k], sep)
    ensures Split(Join(parts, sep), sep) == parts
    decreases |parts|
  {
    if |parts| > 1 {
      var p := parts[0];
      var t := Join(parts[1..], sep);
      var s := p + sep + t;
      assert Join(parts, sep) == s;
      assert OccursAt(s, sep, |p|) by {
        assert s[|p|..|p| + |sep|] == sep;
      }
      forall i: nat | i < |p|
        ensures !OccursAt(s, sep, i)
      {
        NoEarlierOccurrence(p, sep, t, i);
      }
      var f := Find(s, sep);
      assert f == Some(|p|);
      assert s[..|p|] == p;
      assert s[|p| + |sep|..] == t;
      SplitJoin(parts[1..], sep);
      assert parts == [p] + parts[1..];
    }
  }

  /** Two separator-free texts in front of a list of separator-free texts
      make a list of separator-free texts. */
  lemma SeparatorFreePair(a: string, b: string, ps: seq<string>, sep: string)
    requires !Occurs(a, sep) && !Occurs(b, sep)
    requires forall k :: 0 <= k < |ps| ==> !Occurs(ps[k], sep)
    ensures forall k :: 0 <= k < |[a, b] + ps| ==> !Occurs(([a, b] + ps)[k], sep)
  {
    forall k | 0 <= k < |[a, b] + ps|
      ensures !Occurs(([a, b] + ps)[k], sep)
    {
      if k > 1 {
        assert ([a, b] + ps)[k] == ps[k - 2];
      }
    }
  }

  /** `str_replace(pat, '', s)`: every occurrence of `pat`, found left to
      right without overlap, removed. */
  function RemoveAll(s: string, pat: string): string
    requires |pat| > 0
  {
    Join(Split(s, pat), "")
  }

  /** Removing a pattern from a text that holds none leaves it unchanged. */
  lemma RemoveAllAbsent(s: string, pat: string)
    requires |pat| > 0
    requires !Occurs(s, pat)
    ensures RemoveAll(s, pat) == s
  {
  }

  /** Removing a border-free prefix from a text that holds no other
      occurrence of it leaves exactly the rest. */
  lemma RemoveAllLeading(pat: string, d: string)
    requires |pat| > 0 && BorderFree(pat)
    requires !Occurs(d, pat)
    ensures RemoveAll(pat + d, pat) == d
  {
    assert !Occurs("", pat) by {
      forall i: nat ensures !OccursAt("", pat, i) { }
    }
    assert Join(["", d], pat) == pat + d;
    SplitJoin(["", d], pat);
    assert Join(["", d], "") == d;
  }

  /** The characters PHP's `trim` strips by default: space, tab, line feed,
      carriage return, NUL and vertical tab. */
  predicate IsTrimChar(c: char) {
    c == ' ' || c == '\t' || c == '\n' || c == '\r' || c == '\0' || c == '\U{B}'
  }

  /** `ltrim(s)`. */
  function TrimLeft(s: string): (r: string)
    ensures |r| <= |s| && r == s[|s| - |r|..]
    ensures forall i :: 0 <= i < |s| - |r| ==> IsTrimChar(s[i])
    ensures |r| > 0 ==> !IsTrimChar(r[0])
  {
    if |s| > 0 && IsTrimChar(s[0]) then TrimLeft(s[1..]) else s
  }

  /** `rtrim(s)`. */
  function TrimRight(s: string): (r: string)
    ensures |r| <= |s| && r == s[..|r|]
    ensures forall i :: |r| <= i < |s| ==> IsTrimChar(s[i])
    ensures |r| > 0 ==> !IsTrimChar(r[|r| - 1])
  {
    if |s| > 0 && IsTrimChar(s[|s| - 1]) then TrimRight(s[..|s| - 1]) else s
  }

  /** `r` is the infix of `s` starting at `i`, and everything of `s` outside
      it is trim characters. */
  ghost predicate TrimmedAt(s: string, r: string, i: int) {
    && 0 <= i <= |s| - |r|
    && r == s[i..i + |r|]
    && (forall j :: 0 <= j < i ==> IsTrimChar(s[j]))
    && (forall j :: i + |r| <= j < |s| ==> IsTrimChar(s[j]))
  }

  /** `trim(s)`: the longest infix of `s` with no trim character at either
      end, everything cut away being trim characters. */
  function Trim(s: string): (r: string)
    ensures exists i :: TrimmedAt(s, r, i)
    ensures |r| > 0 ==> !IsTrimChar(r[0]) && !IsTrimChar(r[|r| - 1])
  {
    var l := TrimLeft(s);
    var r := TrimRight(l);
    var i := |s| - |l|;
    assert TrimmedAt(s, r, i);
    r
  }

  /** Every character of `s` is one `trim` strips. */
  ghost predicate AllTrimChars(s: string) {
    forall i :: 0 <= i < |s| ==> IsTrimChar(s[i])
  }

  /** `ltrim` removes exactly a leading run of trim characters. */
  lemma {:induction false} TrimLeftPadded(a: string, u: string)
    requires AllTrimChars(a)
    requires |u| > 0 ==> !IsTrimChar(u[0])
    ensures TrimLeft(a + u) == u
    decreases |a|
  {
    if |a| > 0 {
      assert (a + u)[1..] == a[1..] + u;
      TrimLeftPadded(a[1..], u);
    } else {
      assert a + u == u;
    }
  }

  /** `rtrim` removes exactly a trailing run of trim characters. */
  lemma {:induction false} TrimRightPadded(u: string, b: string)
    requires AllTrimChars(b)
    requires |u| > 0 ==> !IsTrimChar(u[|u| - 1])
    ensures TrimRight(u + b) == u
    decreases |b|
  {
    if |b| > 0 {
      assert (u + b)[..|u + b| - 1] == u + b[..|b| - 1];
      TrimRightPadded(u, b[..|b| - 1]);
    } else {
      assert u + b == u;
    }
  }

  /** `trim` gives back a text that was padded with trim characters on both
      sides, whenever the text itself starts and ends with other characters. */
  lemma TrimPadded(a: string, u: string, b: string)
    requires AllTrimChars(a) && AllTrimChars(b)
    requires |u| > 0 ==> !IsTrimChar(u[0]) && !IsTrimChar(u[|u| - 1])
    ensures Trim(a + u + b) == u
  {
    if |u| > 0 {
      assert a + u + b == a + (u + b);
      TrimLeftPadded(a, u + b);
      TrimRightPadded(u, b);
    } else {
      assert a + u + b == a + b;
      TrimLeftPadded(a + b, "");
      assert a + b + "" == a + b;
      assert TrimLeft(a + b) == "";
    }
  }

  /** `substr(s, n)` for `n >= 0`; a start beyond the end yields the empty
      string (PHP 7 returns `false`, which reads as `''` wherever a string is
      expected). */
  function Drop(s: string, n: nat): (r: string)
    ensures n <= |s| ==> s == s[..n] + r
    ensures n > |s| ==> r == ""
  {
    if n <= |s| then s[n..] else ""
  }

  /** The framework's `starts_with(s, p)` for a non-empty `p`. */
  predicate StartsWith(s: string, p: string)
    requires |p| > 0
  {
    |p| <= |s| && s[..|p|] == p
  }

  /** The framework's `ends_with(h, suffix)`, which compares
      `substr(h, -strlen(suffix))` with `suffix`; for an empty suffix that is
      `substr(h, 0)`, the whole of `h`, so only the empty text ends with it. */
  predicate EndsWith(h: string, suffix: string) {
    if |suffix| == 0 then |h| == 0
    else |suffix| <= |h| && h[|h| - |suffix|..] == suffix
  }

  /** The framework's `str_contains(hay, needle)`, which never finds the empty
      needle. */
  predicate StrContains(hay: string, needle: string)
  {
    |needle| > 0 && Find(hay, needle).Some?
  }

  /** `str_contains` finds a needle exactly when it is non-empty and occurs. */
  lemma StrContainsIff(hay: string, needle: string)
    ensures StrContains(hay, needle) <==> |needle| > 0 && Occurs(hay, needle)
  {
  }

  /** `substr_count(s, c)` for a one-character needle. */
  function CountChar(s: string, c: char): (n: nat)
    ensures n <= |s|
    ensures n == 0 <==> c !in s
  {
    if |s| == 0 then 0
    else CountChar(s[..|s| - 1], c) + (if s[|s| - 1] == c then 1 else 0)
  }

  /** Counting distributes over concatenation. */
  lemma {:induction false} CountCharAppend(a: string, b: string, c: char)
    ensures CountChar(a + b, c) == CountChar(a, c) + CountChar(b, c)
    decreases |b|
  {
    if |b| > 0 {
      assert (a + b)[..|a + b| - 1] == a + b[..|b| - 1];
      CountCharAppend(a, b[..|b| - 1], c);
    } else {
      assert a + b == a;
    }
  }

  /** PHP's loose truthiness of a string: only `''` and `'0'` are false. */
  predicate IsFalsy(s: string) {
    s == "" || s == "0"
  }
}
