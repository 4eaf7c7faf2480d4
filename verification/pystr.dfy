/**
 * The few Python `str` built-ins the modelled code leans on, given their Python meaning:
 * `"".join`, `sep.join`, `s.split(c)` with a one-character separator, `re.sub(c + "+", " ", s)`
 * for a single character `c`, `pat in s` / `s.index(pat)`, `str(n)` for an `int`, and `<` on
 * strings. Strings are sequences of Unicode scalar values, as Python's are of code points.
 */
module PyStr {

  import opened Wrappers

  /** `"".join(parts)` */
  function Concat(parts: seq<string>): (r: string)
    ensures |parts| == 1 ==> r == parts[0]
  {
    if parts == [] then "" else parts[0] + Concat(parts[1..])
  }

  lemma {:induction false} ConcatAppend(parts: seq<string>, last: string)
    ensures Concat(parts + [last]) == Concat(parts) + last
  {
    if parts == [] {
      assert parts + [last] == [last];
    } else {
      assert (parts + [last])[1..] == parts[1..] + [last];
      ConcatAppend(parts[1..], last);
    }
  }

  /** `sep.join(parts)` */
  function Join(parts: seq<string>, sep: string): string
  {
    if parts == [] then ""
    else if |parts| == 1 then parts[0]
    else parts[0] + sep + Join(parts[1..], sep)
  }

  lemma {:induction false} JoinAppend(parts: seq<string>, last: string, sep: string)
    requires parts != []
    ensures Join(parts + [last], sep) == Join(parts, sep) + sep + last
  {
    if |parts| == 1 {
      assert parts + [last] == [parts[0], last];
    } else {
      assert (parts + [last])[1..] == parts[1..] + [last];
      JoinAppend(parts[1..], last, sep);
    }
  }

  /**
   * `s.split(c)` for a one-character separator: every occurrence of `c` separates two pieces,
   * so leading, trailing and doubled separators give empty pieces, and `"".split(c) == [""]`.
   * Joining the pieces back with `c` gives `s` again.
   */
  function Split(s: string, c: char): (r: seq<string>)
    ensures |r| >= 1
    ensures forall i :: 0 <= i < |r| ==> c !in r[i]
    ensures Join(r, [c]) == s
    decreases |s|
  {
    if s == [] then [""]
    else
      var rest := Split(s[1..], c);
      if s[0] == c then
        assert Join([""] + rest, [c]) == [c] + Join(rest, [c]) by {
          assert ([""] + rest)[1..] == rest;
        }
        [""] + rest
      else
        var r := [[s[0]] + rest[0]] + rest[1..];
        assert Join(r, [c]) == [s[0]] + Join(rest, [c]) by {
          if |rest| > 1 {
            assert r[1..] == rest[1..];
          }
        }
        r
  }

  /** Splitting at a separator that was put between two strings splits each of them apart. */
  lemma {:induction false} SplitAround(a: string, b: string, c: char)
    ensures Split(a + [c] + b, c) == Split(a, c) + Split(b, c)
    decreases |a|
  {
    if a == [] {
      assert a + [c] + b == [c] + b;
      assert ([c] + b)[1..] == b;
    } else {
      assert (a + [c] + b)[0] == a[0];
      assert (a + [c] + b)[1..] == a[1..] + [c] + b;
      SplitAround(a[1..], b, c);
    }
  }

  /** The pieces of a separator-free string are the string itself. */
  lemma {:induction false} SplitNoSeparator(s: string, c: char)
    requires c !in s
    ensures Split(s, c) == [s]
    decreases |s|
  {
    if s != [] {
      SplitNoSeparator(s[1..], c);
    }
  }

  /** The non-empty strings of `parts`, in order. */
  function NonEmpty(parts: seq<string>): seq<string>
  {
    if parts == [] then []
    else if parts[0] == "" then NonEmpty(parts[1..])
    else [parts[0]] + NonEmpty(parts[1..])
  }

  lemma {:induction false} NonEmptyAppend(a: seq<string>, b: seq<string>)
    ensures NonEmpty(a + b) == NonEmpty(a) + NonEmpty(b)
  {
    if a != [] {
      assert (a + b)[0] == a[0];
      assert (a + b)[1..] == a[1..] + b;
      NonEmptyAppend(a[1..], b);
    } else {
      assert a + b == b;
    }
  }

  /** The words of `s` with respect to spaces: the non-empty pieces of `s.split(" ")`. */
  function Words(s: string): seq<string>
  {
    NonEmpty(Split(s, ' '))
  }

  lemma WordsEmpty()
    ensures Words("") == []
  {
    assert Split("", ' ') == [""];
  }

  /** A string without spaces is a single word, or none when it is empty. */
  lemma WordsOfPiece(p: string)
    requires ' ' !in p
    ensures Words(p) == NonEmpty([p])
  {
    SplitNoSeparator(p, ' ');
  }

  /** The words around a space are the words before it and the words after it. */
  lemma WordsAround(a: string, b: string)
    ensures Words(a + " " + b) == Words(a) + Words(b)
  {
    assert a + " " + b == a + [' '] + b;
    SplitAround(a, b, ' ');
    NonEmptyAppend(Split(a, ' '), Split(b, ' '));
  }

  /** Drops the run of `c` that `s` starts with. */
  function DropRun(s: string, c: char): (r: string)
    ensures |r| <= |s| && r == s[|s| - |r|..]
    ensures r == [] || r[0] != c
    ensures forall i :: 0 <= i < |s| - |r| ==> s[i] == c
    decreases |s|
  {
    if s != [] && s[0] == c then DropRun(s[1..], c) else s
  }

  /**
   * `re.sub(c + "+", " ", s)` for a single character `c` that is not special to the regular
   * expression syntax: each maximal run of `c` becomes one space.
   */
  function CollapseRuns(s: string, c: char): (r: string)
    ensures c != ' ' ==> c !in r
    ensures forall d :: d != c && d != ' ' ==> (d in r <==> d in s)
    ensures (r == []) == (s == [])
    ensures r != [] ==> (r[0] == ' ' <==> s[0] == c || s[0] == ' ')
    decreases |s|
  {
    if s == [] then []
    else if s[0] == c then
      var rest := DropRun(s, c);
      assert forall d :: d != c ==> (d in rest <==> d in s);
      [' '] + CollapseRuns(rest, c)
    else
      [s[0]] + CollapseRuns(s[1..], c)
  }

  /** After collapsing the runs of spaces no two spaces are adjacent. */
  lemma {:induction false} CollapseSpacesNoDouble(s: string)
    ensures forall i :: 0 <= i < |CollapseRuns(s, ' ')| - 1 ==>
      !(CollapseRuns(s, ' ')[i] == ' ' && CollapseRuns(s, ' ')[i + 1] == ' ')
    decreases |s|
  {
    if s != [] {
      if s[0] == ' ' {
        CollapseSpacesNoDouble(DropRun(s, ' '));
      } else {
        CollapseSpacesNoDouble(s[1..]);
      }
    }
  }

  /** `s` with every `c` turned into a space. */
  function SpacedOut(s: string, c: char): (r: string)
    ensures |r| == |s|
    ensures forall i :: 0 <= i < |s| ==> r[i] == (if s[i] == c then ' ' else s[i])
  {
    if s == [] then [] else [if s[0] == c then ' ' else s[0]] + SpacedOut(s[1..], c)
  }

  /** `s` is empty or starts with a space: a character put in front of it is a word of its own. */
  predicate OpensWithBreak(s: string)
  {
    s == [] || s[0] == ' '
  }

  /** The words of a string with one more character in front of it. */
  lemma WordsCons(x: char, s: string)
    requires x != ' '
    ensures OpensWithBreak(s) ==> Words([x] + s) == [[x]] + Words(s)
    ensures !OpensWithBreak(s) ==> Words(s) != [] && Words([x] + s) == [[x] + Words(s)[0]] + Words(s)[1..]
  {
    var pieces := Split(s, ' ');
    assert ([x] + s)[0] == x && ([x] + s)[1..] == s;
    assert Split([x] + s, ' ') == [[x] + pieces[0]] + pieces[1..];
    assert pieces == [pieces[0]] + pieces[1..];
    NonEmptyAppend([pieces[0]], pieces[1..]);
    NonEmptyAppend([[x] + pieces[0]], pieces[1..]);
    if s != [] && s[0] != ' ' {
      assert pieces[0] != "";
    } else {
      assert pieces[0] == "";
      assert [x] + pieces[0] == [x];
    }
  }

  /** A space in front adds no word. */
  lemma WordsSpaceCons(s: string)
    ensures Words([' '] + s) == Words(s)
  {
    assert [' '] + s == "" + " " + s;
    WordsAround("", s);
    WordsEmpty();
  }

  /** Collapsing each run of `c` into one space keeps the words of `s` read with `c` as a space. */
  lemma {:induction false} CollapseRunsWords(s: string, c: char)
    ensures Words(CollapseRuns(s, c)) == Words(SpacedOut(s, c))
    ensures OpensWithBreak(CollapseRuns(s, c)) <==> OpensWithBreak(SpacedOut(s, c))
    decreases |s|
  {
    if s != [] {
      CollapseRunsWords(s[1..], c);
      var spaced := SpacedOut(s, c);
      assert spaced == [spaced[0]] + SpacedOut(s[1..], c);
      if s[0] == c {
        WordsSpaceCons(SpacedOut(s[1..], c));
        WordsSpaceCons(CollapseRuns(DropRun(s, c), c));
        if s[1..] != [] && s[1] == c {
          assert DropRun(s, c) == DropRun(s[1..], c);
          WordsSpaceCons(CollapseRuns(DropRun(s[1..], c), c));
        } else {
          assert DropRun(s, c) == s[1..];
        }
      } else if s[0] == ' ' {
        WordsSpaceCons(SpacedOut(s[1..], c));
        WordsSpaceCons(CollapseRuns(s[1..], c));
      } else {
        WordsCons(s[0], SpacedOut(s[1..], c));
        WordsCons(s[0], CollapseRuns(s[1..], c));
      }
    }
  }

  lemma SpacedOutSpace(s: string)
    ensures SpacedOut(s, ' ') == s
  {
  }

  /** `k` is a place where `pat` occurs in `s`. */
  predicate OccursAt(s: string, pat: string, k: nat)
  {
    k + |pat| <= |s| && s[k..k + |pat|] == pat
  }

  /**
   * `s.index(pat)` when `pat in s`, otherwise None: the first place where `pat` occurs.
   */
  function IndexOf(s: string, pat: string): (r: Option<nat>)
    ensures r.Some? ==> OccursAt(s, pat, r.value)
    ensures r.Some? ==> forall k :: 0 <= k < r.value ==> !OccursAt(s, pat, k)
    ensures r.None? ==> forall k :: 0 <= k <= |s| ==> !OccursAt(s, pat, k)
  {
    IndexFrom(s, pat, 0)
  }

  function IndexFrom(s: string, pat: string, from: nat): (r: Option<nat>)
    requires from <= |s| + 1
    requires forall k :: 0 <= k < from ==> !OccursAt(s, pat, k)
    ensures r.Some? ==> from <= r.value && OccursAt(s, pat, r.value)
    ensures r.Some? ==> forall k :: 0 <= k < r.value ==> !OccursAt(s, pat, k)
    ensures r.None? ==> forall k :: 0 <= k <= |s| ==> !OccursAt(s, pat, k)
    decreases |s| + 1 - from
  {
    if from + |pat| > |s| then None
    else if s[from..from + |pat|] == pat then Some(from)
    else IndexFrom(s, pat, from + 1)
  }

  function DigitChar(d: nat): char
    requires d < 10
  {
    "0123456789"[d]
  }

  /** The decimal digits of `n`, most significant first, as Python's `str` writes them. */
  function NatToString(n: nat): (r: string)
    ensures |r| >= 1
    ensures forall i :: 0 <= i < |r| ==> '0' <= r[i] <= '9'
    ensures |r| > 1 ==> r[0] != '0'
    decreases n
  {
    if n < 10 then [DigitChar(n)] else NatToString(n / 10) + [DigitChar(n % 10)]
  }

  /** `str(n)` for a Python `int`. */
  function IntToString(n: int): string
  {
    if n < 0 then "-" + NatToString(-n) else NatToString(n)
  }

  /**
   * Python's `<` on `str`: lexicographic by code point, a proper prefix being smaller.
   */
  predicate StringLess(a: string, b: string)
    decreases |a|
  {
    if a == [] then b != []
    else if b == [] then false
    else if a[0] != b[0] then a[0] < b[0]
    else StringLess(a[1..], b[1..])
  }

  lemma {:induction false} StringLessIrreflexive(a: string)
    ensures !StringLess(a, a)
    decreases |a|
  {
    if a != [] {
      StringLessIrreflexive(a[1..]);
    }
  }

  lemma {:induction false} StringLessTransitive(a: string, b: string, c: string)
    requires StringLess(a, b) && StringLess(b, c)
    ensures StringLess(a, c)
    decreases |a|
  {
    if a != [] && b != [] && c != [] && a[0] == b[0] == c[0] {
      StringLessTransitive(a[1..], b[1..], c[1..]);
    }
  }

  lemma {:induction false} StringLessTotal(a: string, b: string)
    requires a != b
    ensures StringLess(a, b) || StringLess(b, a)
    decreases |a|
  {
    if a != [] && b != [] && a[0] == b[0] {
      assert a == [a[0]] + a[1..] && b == [b[0]] + b[1..];
      StringLessTotal(a[1..], b[1..]);
    }
  }
}
