/** Byte-array and string operations of the Qt containers that the request
    decoder relies on. A byte is modelled as the `char` with the same code
    (Latin-1), so byte arrays and strings share the type `string`. */
module Text {

  /** One field of a split result, or the empty string when the index is out
      of range (the list accessor `value(i)`). */
  function Field(parts: seq<string>, i: nat): (r: string)
    ensures i < |parts| ==> r == parts[i]
    ensures i >= |parts| ==> r == ""
  {
    if i < |parts| then parts[i] else ""
  }

  /** `split(sep)` keeping empty parts: the pieces between occurrences of
      `sep`; always at least one piece. */
  function Split(s: string, sep: char): (parts: seq<string>)
    ensures |parts| >= 1
    decreases |s|
  {
    if |s| == 0 then [""]
    else
      var rest := Split(s[1..], sep);
      if s[0] == sep then [""] + rest
      else [[s[0]] + rest[0]] + rest[1..]
  }

  /** Joins pieces with `sep` between them; the inverse of `Split`. */
  function Join(parts: seq<string>, sep: char): string
  {
    if |parts| == 0 then ""
    else if |parts| == 1 then parts[0]
    else parts[0] + [sep] + Join(parts[1..], sep)
  }

  lemma {:induction false} SplitHasNoSeparator(s: string, sep: char)
    ensures forall i :: 0 <= i < |Split(s, sep)| ==> sep !in Split(s, sep)[i]
    decreases |s|
  {
    if |s| > 0 {
      SplitHasNoSeparator(s[1..], sep);
    }
  }

  /** Joining the pieces of a split gives back the original text. */
  lemma {:induction false} JoinSplit(s: string, sep: char)
    ensures Join(Split(s, sep), sep) == s
    decreases |s|
  {
    if |s| > 0 {
      var rest := Split(s[1..], sep);
      JoinSplit(s[1..], sep);
      if s[0] == sep {
        assert Split(s, sep) == [""] + rest;
        if |rest| == 1 {
          assert Join([""] + rest, sep) == "" + [sep] + rest[0];
        } else {
          assert ([""] + rest)[1..] == rest;
        }
      } else {
        var parts := [[s[0]] + rest[0]] + rest[1..];
        assert Split(s, sep) == parts;
        if |rest| == 1 {
          assert Join(parts, sep) == [s[0]] + rest[0];
        } else {
          assert parts[1..] == rest[1..];
          assert Join(rest, sep) == rest[0] + [sep] + Join(rest[1..], sep);
        }
      }
    }
  }

  /** Splitting a join of separator-free pieces gives back the pieces. */
  lemma {:induction false} SplitJoin(parts: seq<string>, sep: char)
    requires |parts| >= 1
    requires forall i :: 0 <= i < |parts| ==> sep !in parts[i]
    ensures Split(Join(parts, sep), sep) == parts
    decreases |parts|, |parts[0]|
  {
    if |parts[0]| > 0 {
      var p0 := parts[0];
      var shorter := [p0[1..]] + parts[1..];
      SplitJoin(shorter, sep);
      assert Join(parts, sep) == [p0[0]] + Join(shorter, sep) by {
        if |parts| > 1 {
          assert shorter[1..] == parts[1..];
        }
      }
      assert (([p0[0]] + Join(shorter, sep)))[1..] == Join(shorter, sep);
      assert shorter[1..] == parts[1..];
      assert [p0[0]] + p0[1..] == p0;
      assert [[p0[0]] + p0[1..]] + shorter[1..] == parts;
    } else if |parts| > 1 {
      SplitJoin(parts[1..], sep);
      assert Join(parts, sep) == [sep] + Join(parts[1..], sep);
      assert ([sep] + Join(parts[1..], sep))[1..] == Join(parts[1..], sep);
      assert [""] + parts[1..] == parts;
    }
  }

  /** A text without the separator splits into itself alone. */
  lemma SplitWithoutSeparator(s: string, sep: char)
    requires sep !in s
    ensures Split(s, sep) == [s]
  {
    SplitJoin([s], sep);
  }

  /** Splitting at a separator that joins two texts concatenates their splits. */
  lemma SplitAppend(a: string, b: string, sep: char)
    ensures Split(a + [sep] + b, sep) == Split(a, sep) + Split(b, sep)
  {
    var pa, pb := Split(a, sep), Split(b, sep);
    SplitHasNoSeparator(a, sep);
    SplitHasNoSeparator(b, sep);
    JoinSplit(a, sep);
    JoinSplit(b, sep);
    JoinAppend(pa, pb, sep);
    SplitJoin(pa + pb, sep);
  }

  lemma {:induction false} JoinAppend(p: seq<string>, q: seq<string>, sep: char)
    requires |p| >= 1 && |q| >= 1
    ensures Join(p + q, sep) == Join(p, sep) + [sep] + Join(q, sep)
    decreases |p|
  {
    if |p| == 1 {
      assert (p + q)[1..] == q;
    } else {
      JoinAppend(p[1..], q, sep);
      assert (p + q)[1..] == p[1..] + q;
    }
  }

  /** `split(sep, SkipEmptyParts)`: the non-empty pieces only. */
  function SkipEmpty(parts: seq<string>): (r: seq<string>)
    ensures forall i :: 0 <= i < |r| ==> r[i] != ""
    ensures forall x :: x in r <==> x in parts && x != ""
  {
    if |parts| == 0 then []
    else if parts[|parts| - 1] == "" then SkipEmpty(parts[..|parts| - 1])
    else SkipEmpty(parts[..|parts| - 1]) + [parts[|parts| - 1]]
  }

  /** The pieces each part yields, concatenated in order. */
  function FlatMap<T>(parts: seq<string>, f: string -> seq<T>): seq<T>
  {
    if |parts| == 0 then []
    else FlatMap(parts[..|parts| - 1], f) + f(parts[|parts| - 1])
  }

  /** A single part yields its own pieces. */
  lemma FlatMapSingle<T>(part: string, f: string -> seq<T>)
    ensures FlatMap([part], f) == f(part)
  {
    assert [part][..0] == [];
  }

  lemma {:induction false} FlatMapAppend<T>(p: seq<string>, q: seq<string>, f: string -> seq<T>)
    ensures FlatMap(p + q, f) == FlatMap(p, f) + FlatMap(q, f)
    decreases |q|
  {
    if |q| == 0 {
      assert p + q == p;
    } else {
      var n := |q| - 1;
      FlatMapAppend(p, q[..n], f);
      assert (p + q)[..|p + q| - 1] == p + q[..n];
    }
  }

  /** Whitespace of `QByteArray::trimmed`: the six ASCII space characters. */
  predicate IsByteSpace(c: char)
  {
    c == ' ' || c == '\t' || c == '\n' || c == '\r' || c == '\U{000B}' || c == '\U{000C}'
  }

  /** Whitespace of `QString::trimmed` (`QChar::isSpace`): the ASCII ones,
      NEL, and the Unicode space, line and paragraph separators. */
  predicate IsTextSpace(c: char)
  {
    || IsByteSpace(c)
    || c == '\U{0085}' || c == '\U{00A0}' || c == '\U{1680}'
    || ('\U{2000}' <= c <= '\U{200A}')
    || c == '\U{2028}' || c == '\U{2029}' || c == '\U{202F}' || c == '\U{205F}' || c == '\U{3000}'
  }

  /** The first position at or after `i` that holds no whitespace. */
  function SkipSpaceForward(s: string, space: char -> bool, i: nat): (n: nat)
    requires i <= |s|
    ensures i <= n <= |s|
    ensures forall k :: i <= k < n ==> space(s[k])
    ensures n == |s| || !space(s[n])
    decreases |s| - i
  {
    if i < |s| && space(s[i]) then SkipSpaceForward(s, space, i + 1) else i
  }

  /** The end of `s[lo..j]` once its trailing whitespace is dropped. */
  function SkipSpaceBackward(s: string, space: char -> bool, lo: nat, j: nat): (n: nat)
    requires lo <= j <= |s|
    ensures lo <= n <= j
    ensures forall k :: n <= k < j ==> space(s[k])
    ensures n == lo || !space(s[n - 1])
    decreases j
  {
    if j > lo && space(s[j - 1]) then SkipSpaceBackward(s, space, lo, j - 1) else j
  }

  /** `trimmed()`: the text without leading and trailing whitespace. */
  function Trim(s: string, space: char -> bool): (r: string)
    ensures |r| <= |s|
  {
    var i := SkipSpaceForward(s, space, 0);
    s[i..SkipSpaceBackward(s, space, i, |s|)]
  }

  /** The trimmed text is a slice of the original that neither starts nor
      ends with whitespace, and only whitespace lies outside it. */
  lemma TrimIsInnerSlice(s: string, space: char -> bool)
    ensures exists i, j ::
      && 0 <= i <= j <= |s| && Trim(s, space) == s[i..j]
      && (forall k :: 0 <= k < i ==> space(s[k]))
      && (forall k :: j <= k < |s| ==> space(s[k]))
    ensures var r := Trim(s, space); r == [] || (!space(r[0]) && !space(r[|r| - 1]))
  {
    var i := SkipSpaceForward(s, space, 0);
    var j := SkipSpaceBackward(s, space, i, |s|);
    assert Trim(s, space) == s[i..j];
  }

  /** A text made of whitespace only trims to the empty text. */
  lemma TrimBlank(s: string, space: char -> bool)
    requires forall k :: 0 <= k < |s| ==> space(s[k])
    ensures Trim(s, space) == ""
  {
    var i := SkipSpaceForward(s, space, 0);
    assert i == |s|;
  }

  /** Latin-1 lower-casing of one character (`QByteArray::toLower`). */
  function LowerChar(c: char): (r: char)
    ensures ('A' <= c <= 'Z') ==> r as int == c as int + 32
    ensures ('a' <= c <= 'z') ==> r == c
    ensures c as int < 128 && !('A' <= c <= 'Z') ==> r == c
  {
    if ('A' <= c <= 'Z') || ('\U{00C0}' <= c <= '\U{00DE}' && c != '\U{00D7}')
    then (c as int + 32) as char
    else c
  }

  function ToLower(s: string): (r: string)
    ensures |r| == |s|
    ensures forall i :: 0 <= i < |s| ==> r[i] == LowerChar(s[i])
  {
    seq(|s|, i requires 0 <= i < |s| => LowerChar(s[i]))
  }

  /** The text a byte array gives when Qt converts it to a `QString`, as far
      as the model follows that conversion: it stops at the first NUL byte. */
  function UpToNul(s: string): (r: string)
    ensures r <= s && '\0' !in r
    ensures |r| < |s| ==> s[|r|] == '\0'
  {
    if s == [] || s[0] == '\0' then [] else [s[0]] + UpToNul(s[1..])
  }

  /** `startsWith(prefix, Qt::CaseInsensitive)`. */
  predicate StartsWithIgnoreCase(s: string, prefix: string)
  {
    |prefix| <= |s| && ToLower(s[..|prefix|]) == ToLower(prefix)
  }

  predicate EndsWith(s: string, suffix: string)
  {
    |suffix| <= |s| && s[|s| - |suffix|..] == suffix
  }

  /** `pat` occurs in `s` at position `k`. */
  predicate OccursAt(s: string, pat: string, k: int)
  {
    0 <= k && k + |pat| <= |s| && s[k..k + |pat|] == pat
  }

  /** `indexOf(pat, from)`: the first position at or after `from` where `pat`
      occurs, or -1 when there is none. */
  function IndexOf(s: string, pat: string, from: nat): (r: int)
    ensures r == -1 || (from <= r && r + |pat| <= |s|)
    decreases |s| - from
  {
    if from + |pat| > |s| then -1
    else if OccursAt(s, pat, from) then from
    else IndexOf(s, pat, from + 1)
  }

  /** `indexOf` finds an occurrence, and no occurrence lies between the
      start and the position found (or the end, when it finds none). */
  lemma {:induction false} IndexOfFinds(s: string, pat: string, from: nat)
    ensures var r := IndexOf(s, pat, from);
      && (r == -1 || OccursAt(s, pat, r))
      && forall k :: from <= k && (r == -1 || k < r) ==> !OccursAt(s, pat, k)
    decreases |s| - from
  {
    if from + |pat| <= |s| && !OccursAt(s, pat, from) {
      IndexOfFinds(s, pat, from + 1);
    }
  }

  /** `mid(pos, len)` for a non-negative position and length: at most `len`
      characters starting at `pos`, fewer when the text ends first. */
  function Mid(s: string, pos: nat, len: nat): (r: string)
    ensures |r| == if pos >= |s| then 0 else if pos + len <= |s| then len else |s| - pos
    ensures pos < |s| ==> r == s[pos..pos + |r|]
  {
    if pos >= |s| then "" else if pos + len <= |s| then s[pos..pos + len] else s[pos..]
  }

  /** `mid(pos)`: everything from `pos` on. */
  function MidRest(s: string, pos: nat): (r: string)
    ensures pos <= |s| ==> r == s[pos..]
    ensures pos >= |s| ==> r == ""
  {
    if pos >= |s| then "" else s[pos..]
  }
}
