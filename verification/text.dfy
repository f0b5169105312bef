/** String operations of the JavaScript runtime that the blog relies on:
    the whitespace class of `\s` and `String.prototype.trim`, `split` on a
    one-character separator, `Array.prototype.join`, and a case-insensitive
    substring test. Strings are sequences of characters; a character here
    stands for one UTF-16 code unit of the source. */
module Text {

  /** The characters JavaScript counts as white space or line terminators
      (the class `\s` and the characters `trim` removes). */
  predicate IsSpace(c: char) {
    c == ' ' || c == '\t' || c == '\n' || c == '\r' || c == '\U{000B}' || c == '\U{000C}'
    || c == '\U{00A0}' || c == '\U{1680}' || ('\U{2000}' <= c <= '\U{200A}')
    || c == '\U{2028}' || c == '\U{2029}' || c == '\U{202F}' || c == '\U{205F}'
    || c == '\U{3000}' || c == '\U{FEFF}'
  }

  predicate AllSpace(s: string) {
    forall i :: 0 <= i < |s| ==> IsSpace(s[i])
  }

  /** No white space at either end (what `trim` leaves). */
  predicate IsTrimmed(s: string) {
    s == [] || (!IsSpace(s[0]) && !IsSpace(s[|s| - 1]))
  }

  /** The first index at or after `i` whose character is not white space,
      or `|s|` when there is none. */
  function SkipSpace(s: string, i: nat): (k: nat)
    requires i <= |s|
    ensures i <= k <= |s|
    ensures forall m :: i <= m < k ==> IsSpace(s[m])
    ensures k == |s| || !IsSpace(s[k])
    decreases |s| - i
  {
    if i < |s| && IsSpace(s[i]) then SkipSpace(s, i + 1) else i
  }

  /** The index just after the last character before `j` that is not white
      space, or 0 when there is none. */
  function SkipSpaceBack(s: string, j: nat): (k: nat)
    requires j <= |s|
    ensures k <= j
    ensures forall m :: k <= m < j ==> IsSpace(s[m])
    ensures k == 0 || !IsSpace(s[k - 1])
  {
    if j > 0 && IsSpace(s[j - 1]) then SkipSpaceBack(s, j - 1) else j
  }

  /** The scan from `i` is the only index with its two properties. */
  lemma SkipSpaceUnique(s: string, i: nat, k: nat)
    requires i <= k <= |s|
    requires forall m :: i <= m < k ==> IsSpace(s[m])
    requires k == |s| || !IsSpace(s[k])
    ensures SkipSpace(s, i) == k
  {
  }

  function TrimStart(s: string): (r: string)
    ensures |r| <= |s| && r == s[|s| - |r|..]
    ensures AllSpace(s[..|s| - |r|])
    ensures r == [] || !IsSpace(r[0])
  {
    var k := SkipSpace(s, 0);
    assert AllSpace(s[..k]) by {
      forall m | 0 <= m < k ensures IsSpace(s[..k][m]) { assert s[..k][m] == s[m]; }
    }
    s[k..]
  }

  function TrimEnd(s: string): (r: string)
    ensures |r| <= |s| && r == s[..|r|]
    ensures AllSpace(s[|r|..])
    ensures r == [] || !IsSpace(r[|r| - 1])
  {
    var k := SkipSpaceBack(s, |s|);
    assert AllSpace(s[k..]) by {
      forall m | 0 <= m < |s| - k ensures IsSpace(s[k..][m]) { assert s[k..][m] == s[k + m]; }
    }
    s[..k]
  }

  /** `s.trim()`: leading and trailing white space removed. */
  function Trim(s: string): (r: string)
    ensures IsTrimmed(r)
    ensures |r| <= |s|
  {
    var t := TrimStart(s);
    var r := TrimEnd(t);
    assert r != [] ==> r[0] == t[0];
    r
  }

  /** A prefix `r` of a suffix `t` of `s` is a slice of `s`, and white space
      after `r` in `t` is white space at the end of `s`. */
  lemma MiddleSlice(s: string, t: string, r: string)
    requires |t| <= |s| && t == s[|s| - |t|..]
    requires |r| <= |t| && r == t[..|r|] && AllSpace(t[|r|..])
    ensures r == s[|s| - |t|..|s| - |t| + |r|]
    ensures AllSpace(s[|s| - |t| + |r|..])
  {
    assert s[|s| - |t| + |r|..] == t[|r|..];
  }

  /** What `trim` keeps is the middle of the string: it starts after the
      leading white space, and only white space follows it. */
  lemma TrimIsMiddle(s: string)
    ensures var i := |s| - |TrimStart(s)|; var j := i + |Trim(s)|;
      && 0 <= i <= j <= |s| && Trim(s) == s[i..j] && AllSpace(s[..i]) && AllSpace(s[j..])
  {
    MiddleSlice(s, TrimStart(s), Trim(s));
  }

  /** `xs.map((x) => x.trim())` */
  function TrimAll(xs: seq<string>): (r: seq<string>)
    ensures |r| == |xs| && forall i :: 0 <= i < |xs| ==> r[i] == Trim(xs[i])
  {
    if xs == [] then [] else [Trim(xs[0])] + TrimAll(xs[1..])
  }

  /** A sequence given element by element from `a + b` is the elementwise
      results of `a` followed by those of `b`. */
  lemma PointwiseAppend<T, U>(f: T -> U, a: seq<T>, b: seq<T>, ra: seq<U>, rb: seq<U>, r: seq<U>)
    requires |ra| == |a| && forall i :: 0 <= i < |a| ==> ra[i] == f(a[i])
    requires |rb| == |b| && forall i :: 0 <= i < |b| ==> rb[i] == f(b[i])
    requires |r| == |a + b| && forall i :: 0 <= i < |a + b| ==> r[i] == f((a + b)[i])
    ensures r == ra + rb
  {
    forall i | 0 <= i < |r| ensures r[i] == (ra + rb)[i] {
      if i < |a| {
        assert (a + b)[i] == a[i];
      } else {
        assert (a + b)[i] == b[i - |a|];
      }
    }
  }

  lemma TrimAllAppend(xs: seq<string>, ys: seq<string>)
    ensures TrimAll(xs + ys) == TrimAll(xs) + TrimAll(ys)
  {
    PointwiseAppend((s: string) => Trim(s), xs, ys, TrimAll(xs), TrimAll(ys), TrimAll(xs + ys));
  }

  lemma TrimStartOfTrimmedStart(s: string)
    requires s == [] || !IsSpace(s[0])
    ensures TrimStart(s) == s
  {
  }

  lemma TrimEndOfTrimmedEnd(s: string)
    requires s == [] || !IsSpace(s[|s| - 1])
    ensures TrimEnd(s) == s
  {
  }

  /** Trimming a string that has no white space at its ends changes nothing. */
  lemma TrimOfTrimmed(s: string)
    requires IsTrimmed(s)
    ensures Trim(s) == s
  {
    TrimStartOfTrimmedStart(s);
    TrimEndOfTrimmedEnd(s);
  }

  /** `trim` is idempotent. */
  lemma TrimIdempotent(s: string)
    ensures Trim(Trim(s)) == Trim(s)
  {
    TrimOfTrimmed(Trim(s));
  }

  /** Leading white space does not change the trimmed form. */
  lemma TrimStartSkipsSpace(w: string, t: string)
    requires AllSpace(w)
    ensures TrimStart(w + t) == TrimStart(t)
  {
    var s := w + t;
    var k := SkipSpace(t, 0);
    forall m | 0 <= m < |w| + k ensures IsSpace(s[m]) {
      if m < |w| { assert s[m] == w[m]; } else { assert s[m] == t[m - |w|]; }
    }
    assert |w| + k == |s| || s[|w| + k] == t[k];
    SkipSpaceUnique(s, 0, |w| + k);
    assert s[|w| + k..] == t[k..];
  }

  /** A string trims to the empty string exactly when it is all white space. */
  lemma TrimEmptyIffAllSpace(s: string)
    ensures Trim(s) == [] <==> AllSpace(s)
  {
    var t := TrimStart(s);
    if Trim(s) == [] {
      assert AllSpace(t[|TrimEnd(t)|..]);
      assert t[0..] == t;
      assert t == [];
      assert s[..|s|] == s;
    }
    if AllSpace(s) && s != [] {
      TrimStartSkipsSpace(s, []);
      assert s + [] == s;
    }
  }

  /** Trimming a string with one white-space character in front. */
  lemma TrimPadded(c: char, t: string)
    requires IsSpace(c) && IsTrimmed(t)
    ensures Trim([c] + t) == t
  {
    TrimStartSkipsSpace([c], t);
    TrimOfTrimmed(t);
    TrimStartOfTrimmedStart(t);
  }

  /** Trimming strings that are already trimmed changes none of them. */
  lemma TrimAllOfTrimmed(xs: seq<string>)
    requires forall i :: 0 <= i < |xs| ==> IsTrimmed(xs[i])
    ensures TrimAll(xs) == xs
  {
    forall i | 0 <= i < |xs| ensures TrimAll(xs)[i] == xs[i] {
      TrimOfTrimmed(xs[i]);
    }
  }

  /** Trimming only removes characters: a character absent from `s` is
      absent from its trimmed form. */
  lemma TrimAddsNoChar(s: string, c: char)
    requires c !in s
    ensures c !in Trim(s)
  {
    var t := TrimStart(s);
    var r := TrimEnd(t);
    forall i | 0 <= i < |r| ensures r[i] != c {
      assert r[i] == t[i] == s[|s| - |t| + i];
    }
  }

  /** `s.split(sep)` for a one-character separator: the pieces between
      separators, with empty pieces kept; the empty string gives `[""]`. */
  function Split(s: string, sep: char): (r: seq<string>)
    ensures |r| >= 1
    ensures forall i :: 0 <= i < |r| ==> sep !in r[i]
    decreases |s|
  {
    if s == [] then [[]]
    else
      var rest := Split(s[1..], sep);
      if s[0] == sep then [[]] + rest
      else [[s[0]] + rest[0]] + rest[1..]
  }

  /** `parts.join(sep)`. */
  function Join(parts: seq<string>, sep: string): string
  {
    if parts == [] then []
    else if |parts| == 1 then parts[0]
    else parts[0] + sep + Join(parts[1..], sep)
  }

  /** Joining the pieces of a split with the separator gives the string back. */
  lemma {:induction false} JoinSplit(s: string, sep: char)
    ensures Join(Split(s, sep), [sep]) == s
    decreases |s|
  {
    if s != [] {
      var rest := Split(s[1..], sep);
      JoinSplit(s[1..], sep);
      if s[0] == sep {
        assert Split(s, sep) == [[]] + rest;
        assert ([[]] + rest)[1..] == rest;
      } else {
        var r := Split(s, sep);
        assert r == [[s[0]] + rest[0]] + rest[1..];
        if |rest| == 1 {
          assert r == [[s[0]] + rest[0]];
        } else {
          assert r[1..] == rest[1..];
          assert Join(rest, [sep]) == rest[0] + [sep] + Join(rest[1..], [sep]);
        }
      }
    }
  }

  /** Splitting a join of separator-free pieces gives the pieces back. */
  lemma {:induction false} SplitJoin(parts: seq<string>, sep: char)
    requires |parts| >= 1
    requires forall i :: 0 <= i < |parts| ==> sep !in parts[i]
    ensures Split(Join(parts, [sep]), sep) == parts
    decreases |parts|
  {
    if |parts| == 1 {
      SplitFree(parts[0], [], sep);
      assert parts[0] + [] == parts[0];
      assert Split([], sep) == [[]];
      assert Join(parts, [sep]) == parts[0];
    } else {
      SplitJoin(parts[1..], sep);
      var tail := Join(parts[1..], [sep]);
      SplitFree(parts[0], [sep] + tail, sep);
      assert parts[0] + [sep] + tail == parts[0] + ([sep] + tail);
      assert ([sep] + tail)[1..] == tail;
      assert ([sep] + tail)[0] == sep;
      assert Split([sep] + tail, sep) == [[]] + parts[1..];
      assert Join(parts, [sep]) == parts[0] + [sep] + tail;
      assert parts[0] + [] == parts[0];
      assert parts == [parts[0]] + parts[1..];
    }
  }

  /** A separator-free prefix glues onto the first piece. */
  lemma {:induction false} SplitFree(w: string, t: string, sep: char)
    requires sep !in w
    ensures Split(w + t, sep) == [w + Split(t, sep)[0]] + Split(t, sep)[1..]
    decreases |w|
  {
    if w == [] {
      assert w + t == t;
      assert w + Split(t, sep)[0] == Split(t, sep)[0];
      assert Split(t, sep) == [Split(t, sep)[0]] + Split(t, sep)[1..];
    } else {
      assert (w + t)[1..] == w[1..] + t;
      SplitFree(w[1..], t, sep);
      assert [w[0]] + (w[1..] + Split(t, sep)[0]) == w + Split(t, sep)[0];
    }
  }

  /** Splitting text joined at a separator gives the pieces of each side,
      in order. */
  lemma {:induction false} SplitAppend(a: string, b: string, sep: char)
    ensures Split(a + [sep] + b, sep) == Split(a, sep) + Split(b, sep)
    decreases |a|
  {
    var s := a + [sep] + b;
    if a == [] {
      assert s == [sep] + b && s[1..] == b;
    } else {
      assert s[0] == a[0] && s[1..] == a[1..] + [sep] + b;
      SplitAppend(a[1..], b, sep);
    }
  }

  /** Lower-case mapping of the ASCII letters; other characters are kept. */
  function ToLower(c: char): (r: char)
    ensures 'A' <= c <= 'Z' ==> 'a' <= r <= 'z'
    ensures !('A' <= c <= 'Z') ==> r == c
  {
    if 'A' <= c <= 'Z' then (c as int + 32) as char else c
  }

  function LowerAll(s: string): (r: string)
    ensures |r| == |s| && forall i :: 0 <= i < |s| ==> r[i] == ToLower(s[i])
  {
    if s == [] then [] else [ToLower(s[0])] + LowerAll(s[1..])
  }

  /** `needle` occurs as a contiguous piece of `hay`. */
  predicate Occurs(needle: string, hay: string)
    decreases |hay|
  {
    needle <= hay || (hay != [] && Occurs(needle, hay[1..]))
  }

  /** Case-insensitive substring test. */
  predicate ContainsIgnoringCase(hay: string, needle: string) {
    Occurs(LowerAll(needle), LowerAll(hay))
  }

  /** `needle` sits in `hay` at offset `k`. */
  predicate OccursAtOffset(needle: string, hay: string, k: int) {
    0 <= k && k + |needle| <= |hay| && hay[k..k + |needle|] == needle
  }

  /** An occurrence found by `Occurs` sits at some offset. */
  lemma {:induction false} OccursHasOffset(needle: string, hay: string)
    requires Occurs(needle, hay)
    ensures exists k :: OccursAtOffset(needle, hay, k)
    decreases |hay|
  {
    if needle <= hay {
      assert hay[0..|needle|] == needle;
      assert OccursAtOffset(needle, hay, 0);
    } else {
      OccursHasOffset(needle, hay[1..]);
      var k :| OccursAtOffset(needle, hay[1..], k);
      assert hay[k + 1..k + 1 + |needle|] == hay[1..][k..k + |needle|];
      assert OccursAtOffset(needle, hay, k + 1);
    }
  }

  /** A needle at offset `k` is found by `Occurs`. */
  lemma {:induction false} OffsetGivesOccurs(needle: string, hay: string, k: int)
    requires OccursAtOffset(needle, hay, k)
    ensures Occurs(needle, hay)
    decreases k
  {
    if k == 0 {
      assert needle == hay[..|needle|];
    } else {
      assert hay[1..][k - 1..k - 1 + |needle|] == hay[k..k + |needle|];
      OffsetGivesOccurs(needle, hay[1..], k - 1);
    }
  }

  /** `Occurs` holds exactly when the needle sits at some offset of the hay. */
  lemma OccursAt(needle: string, hay: string)
    ensures Occurs(needle, hay) <==> exists k :: OccursAtOffset(needle, hay, k)
  {
    if Occurs(needle, hay) {
      OccursHasOffset(needle, hay);
    }
    if k :| OccursAtOffset(needle, hay, k) {
      OffsetGivesOccurs(needle, hay, k);
    }
  }

}
