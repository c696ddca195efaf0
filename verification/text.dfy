/**
 * The Kotlin standard-library string operations that record naming is built
 * from (`replace`, `split`, `dropLast`, `joinToString`, `last`, `removeSuffix`),
 * for the dot delimiter used in class paths, together with an independent
 * reference definition of "the text before / after the last dot".
 */
module Text {

  /** `pat` occurs somewhere in `s`. */
  ghost predicate Occurs(s: string, pat: string) {
    exists i :: 0 <= i <= |s| && pat <= s[i..]
  }

  /**
   * `s.replace(oldValue, newValue)`: every occurrence of `oldValue`, found
   * left to right without overlaps, is replaced; text produced by a
   * replacement is not searched again.
   */
  function Replace(s: string, oldValue: string, newValue: string): (r: string)
    requires oldValue != []
    // replacing a text by itself changes nothing
    ensures newValue == oldValue ==> r == s
    decreases |s|
  {
    if s == [] then []
    else if oldValue <= s then
      assert oldValue + s[|oldValue|..] == s;
      newValue + Replace(s[|oldValue|..], oldValue, newValue)
    else [s[0]] + Replace(s[1..], oldValue, newValue)
  }

  /** A path marker such as `.<init>`: it starts with a dot and has no other dot. */
  predicate IsMarker(m: string) {
    |m| > 0 && m[0] == '.' && '.' !in m[1..]
  }

  /** Removing a string that does not occur changes nothing. */
  lemma {:induction false} ReplaceAbsent(s: string, oldValue: string, newValue: string)
    requires oldValue != [] && !Occurs(s, oldValue)
    ensures Replace(s, oldValue, newValue) == s
    decreases |s|
  {
    if s != [] {
      assert !(oldValue <= s[0..]);
      assert s[0..] == s;
      forall i | 0 <= i <= |s[1..]| ensures !(oldValue <= s[1..][i..]) {
        assert s[1..][i..] == s[i + 1..];
      }
      ReplaceAbsent(s[1..], oldValue, newValue);
    }
  }

  /** Removing a string that occurs makes the text strictly shorter. */
  lemma {:induction false} RemoveShortens(s: string, oldValue: string)
    requires oldValue != [] && Occurs(s, oldValue)
    ensures |Replace(s, oldValue, "")| < |s|
    decreases |s|
  {
    var i :| 0 <= i <= |s| && oldValue <= s[i..];
    if oldValue <= s {
      RemoveNeverLengthens(s[|oldValue|..], oldValue);
    } else {
      assert i != 0 by { assert s[0..] == s; }
      assert s[1..][i - 1..] == s[i..];
      RemoveShortens(s[1..], oldValue);
    }
  }

  /** Removing a string never makes the text longer. */
  lemma {:induction false} RemoveNeverLengthens(s: string, oldValue: string)
    requires oldValue != []
    ensures |Replace(s, oldValue, "")| <= |s|
    decreases |s|
  {
    if s != [] {
      if oldValue <= s {
        RemoveNeverLengthens(s[|oldValue|..], oldValue);
      } else {
        RemoveNeverLengthens(s[1..], oldValue);
      }
    }
  }

  /** Removing `oldValue` leaves `s` unchanged exactly when `oldValue` does not occur in `s`. */
  lemma RemoveUnchangedIff(s: string, oldValue: string)
    requires oldValue != []
    ensures Replace(s, oldValue, "") == s <==> !Occurs(s, oldValue)
  {
    if Occurs(s, oldValue) {
      RemoveShortens(s, oldValue);
    } else {
      ReplaceAbsent(s, oldValue, "");
    }
  }

  /** Text without a dot contains no marker, so replacing a marker leaves it alone. */
  lemma {:induction false} ReplaceMarkerDotFree(s: string, m: string, newValue: string)
    requires IsMarker(m) && '.' !in s
    ensures Replace(s, m, newValue) == s
    decreases |s|
  {
    if s != [] {
      assert s[0] != '.';
      assert !(m <= s);
      ReplaceMarkerDotFree(s[1..], m, newValue);
    }
  }

  /**
   * The same, stated for every text as an implication, so that a function
   * body such as `Normalize` can invoke it without branching on the dot.
   */
  lemma ReplaceMarkerKeepsDotFree(s: string, m: string, newValue: string)
    requires IsMarker(m)
    ensures '.' !in s ==> Replace(s, m, newValue) == s
  {
    if '.' !in s {
      ReplaceMarkerDotFree(s, m, newValue);
    }
  }

  /**
   * A single segment, a dot followed by dot-free text, loses its head when
   * it starts with the marker and is otherwise kept whole.
   */
  lemma ReplaceMarkerSegment(p: string, m: string)
    requires IsMarker(m) && |p| > 0 && p[0] == '.' && '.' !in p[1..]
    ensures Replace(p, m, "") == if m <= p then p[|m|..] else p
  {
    if m <= p {
      assert forall i :: |m| <= i < |p| ==> p[i] == p[1..][i - 1];
      ReplaceMarkerDotFree(p[|m|..], m, "");
    } else {
      ReplaceMarkerDotFree(p[1..], m, "");
      assert [p[0]] + p[1..] == p;
    }
  }

  /**
   * Removing a marker distributes over a concatenation whose right part
   * starts with a dot: no occurrence of the marker can straddle that dot,
   * because the marker has a dot only at its start.
   */
  lemma {:induction false} ReplaceMarkerConcat(a: string, b: string, m: string)
    requires IsMarker(m) && |b| > 0 && b[0] == '.'
    ensures Replace(a + b, m, "") == Replace(a, m, "") + Replace(b, m, "")
    decreases |a|
  {
    if a == [] {
      assert a + b == b;
    } else if m <= a + b {
      MarkerStaysLeft(a, b, m);
      assert (a + b)[|m|..] == a[|m|..] + b;
      ReplaceMarkerConcat(a[|m|..], b, m);
    } else {
      assert m <= a ==> m <= a + b;
      assert (a + b)[1..] == a[1..] + b;
      ReplaceMarkerConcat(a[1..], b, m);
    }
  }

  /** A marker at the start of `a + b`, where `b` starts with a dot, lies within `a`. */
  lemma MarkerStaysLeft(a: string, b: string, m: string)
    requires IsMarker(m) && |b| > 0 && b[0] == '.' && a != [] && m <= a + b
    ensures m <= a
  {
    assert (a + b)[|a|] == '.';
    assert forall i :: 0 < i < |m| ==> m[i] == m[1..][i - 1];
  }

  /**
   * `s.split('.')`: the segments between dots, keeping empty segments
   * (Kotlin drops none, not even trailing ones), so there is always one
   * more segment than there are dots.
   */
  function Split(s: string): (r: seq<string>)
    ensures |r| >= 1
    ensures forall k :: 0 <= k < |r| ==> '.' !in r[k]
    decreases |s|
  {
    if s == [] then [""]
    else
      var rest := Split(s[1..]);
      if s[0] == '.' then [""] + rest
      else [[s[0]] + rest[0]] + rest[1..]
  }

  /** `segments.joinToString(".")`. */
  function Join(segments: seq<string>): (r: string)
    // no segments give the empty text, and a single segment is joined as it is
    ensures |segments| == 0 ==> r == ""
    ensures |segments| == 1 ==> r == segments[0]
    // with more, the first segment and a dot start the result
    ensures |segments| > 1 ==> segments[0] + "." <= r
    decreases |segments|
  {
    if |segments| == 0 then ""
    else if |segments| == 1 then segments[0]
    else segments[0] + "." + Join(segments[1..])
  }

  /** `segments.last()` (record naming only calls it on a split result, which is never empty). */
  function Last(segments: seq<string>): (x: string)
    requires |segments| > 0
    // an element of the list, the only one when there is only one
    ensures x in segments
    ensures |segments| == 1 ==> x == segments[0]
  {
    segments[|segments| - 1]
  }

  /** `segments.dropLast(1)`. */
  function DropLast(segments: seq<string>): (r: seq<string>)
    // one segment fewer, and putting the last one back gives the list again
    ensures |segments| > 0 ==> |r| == |segments| - 1 && r + [Last(segments)] == segments
    ensures |segments| == 0 ==> r == []
  {
    if |segments| == 0 then [] else segments[..|segments| - 1]
  }

  /** `s.removeSuffix(suffix)`: drops one copy of `suffix` from the end, if there. */
  function RemoveSuffix(s: string, suffix: string): (r: string)
    ensures |suffix| <= |s| && s[|s| - |suffix|..] == suffix ==> r + suffix == s
    ensures !(|suffix| <= |s| && s[|s| - |suffix|..] == suffix) ==> r == s
  {
    if |suffix| <= |s| && s[|s| - |suffix|..] == suffix then s[..|s| - |suffix|] else s
  }

  /** Index of the last dot of `s`, or -1 when `s` has none. */
  function LastDot(s: string): (k: int)
    ensures -1 <= k < |s|
    ensures k >= 0 ==> s[k] == '.'
    ensures forall j :: k < j < |s| ==> s[j] != '.'
    ensures k < 0 <==> '.' !in s
    decreases |s|
  {
    if s == [] then -1
    else if s[|s| - 1] == '.' then |s| - 1
    else LastDot(s[..|s| - 1])
  }

  /** The last dot is the dot after which no other dot follows. */
  lemma LastDotIs(s: string, k: int)
    requires 0 <= k < |s| && s[k] == '.'
    requires forall j :: k < j < |s| ==> s[j] != '.'
    ensures LastDot(s) == k
  {
  }

  /** Reference definition: the text before the last dot, or "" without a dot. */
  function BeforeLastDot(s: string): string {
    var k := LastDot(s);
    if k < 0 then "" else s[..k]
  }

  /** Reference definition: the text after the last dot, or all of `s` without a dot. */
  function AfterLastDot(s: string): string {
    s[LastDot(s) + 1..]
  }

  /** Splitting and re-joining with "." gives back the original text. */
  lemma {:induction false} JoinSplit(s: string)
    ensures Join(Split(s)) == s
    decreases |s|
  {
    if s != [] {
      var rest := Split(s[1..]);
      JoinSplit(s[1..]);
      if s[0] == '.' {
        assert ([""] + rest)[1..] == rest;
      } else if |rest| == 1 {
        assert Split(s) == [[s[0]] + rest[0]];
      } else {
        var r := Split(s);
        assert r[0] == [s[0]] + rest[0] && r[1..] == rest[1..];
        assert Join(rest) == rest[0] + "." + Join(rest[1..]);
      }
    }
  }

  /** A dot-free text splits into itself alone. */
  lemma {:induction false} SplitDotFree(s: string)
    requires '.' !in s
    ensures Split(s) == [s]
    decreases |s|
  {
    if s != [] {
      assert forall j :: 0 <= j < |s[1..]| ==> s[1..][j] == s[j + 1];
      SplitDotFree(s[1..]);
      assert [s[0]] + s[1..] == s;
    }
  }

  /** A dot-free prefix followed by a dot becomes the first segment. */
  lemma {:induction false} SplitDotFreePrefix(x: string, t: string)
    requires '.' !in x
    ensures Split(x + "." + t) == [x] + Split(t)
    decreases |x|
  {
    if x == [] {
      assert x + "." + t == "." + t;
      assert ("." + t)[1..] == t;
    } else {
      var s := x + "." + t;
      assert s[1..] == x[1..] + "." + t;
      assert forall j :: 0 <= j < |x[1..]| ==> x[1..][j] == x[j + 1];
      SplitDotFreePrefix(x[1..], t);
      assert [x[0]] + x[1..] == x;
    }
  }

  /** Joining dot-free segments and splitting again gives back the segments. */
  lemma {:induction false} SplitJoin(segments: seq<string>)
    requires |segments| >= 1
    requires forall k :: 0 <= k < |segments| ==> '.' !in segments[k]
    ensures Split(Join(segments)) == segments
    decreases |segments|
  {
    if |segments| == 1 {
      SplitDotFree(segments[0]);
    } else {
      SplitJoin(segments[1..]);
      SplitDotFreePrefix(segments[0], Join(segments[1..]));
      assert [segments[0]] + segments[1..] == segments;
    }
  }

  /** With at least two segments, the joined text is the joined prefix, a dot, and the last segment. */
  lemma {:induction false} JoinDropLast(segments: seq<string>)
    requires |segments| >= 2
    ensures Join(segments) == Join(DropLast(segments)) + "." + Last(segments)
    decreases |segments|
  {
    if |segments| > 2 {
      var front := DropLast(segments);
      JoinDropLast(segments[1..]);
      DropLastOfTail(segments);
      assert Join(front) == segments[0] + "." + Join(front[1..]);
      assert Join(segments) == segments[0] + "." + Join(segments[1..]);
    }
  }

  /** Dropping the first segment commutes with `DropLast` and keeps `Last`. */
  lemma DropLastOfTail(segments: seq<string>)
    requires |segments| > 2
    ensures DropLast(segments[1..]) == DropLast(segments)[1..]
    ensures Last(segments[1..]) == Last(segments)
    ensures |DropLast(segments)| > 1 && DropLast(segments)[0] == segments[0]
  {
  }

  /**
   * `RecordNaming`'s namespace/name derivation, `split('.').dropLast(1).joinToString(".")`
   * and `split('.').last()`, is the text before and after the last dot.
   */
  lemma SplitAtLastDot(s: string)
    ensures Join(DropLast(Split(s))) == BeforeLastDot(s)
    ensures Last(Split(s)) == AfterLastDot(s)
    ensures '.' !in Last(Split(s))
  {
    var segs := Split(s);
    JoinSplit(s);
    var k := LastDot(s);
    if |segs| == 1 {
      assert s == segs[0];
      assert s[0..] == s;
    } else {
      JoinDropLast(segs);
      var a, b := Join(DropLast(segs)), Last(segs);
      assert s == a + "." + b;
      LastDotOfJoin(a, b);
    }
  }

  /** Without a dot, the text after the last dot is the whole text and the text before it is "". */
  lemma DotFreeSplitsToItself(s: string)
    requires '.' !in s
    ensures BeforeLastDot(s) == "" && AfterLastDot(s) == s
  {
    assert s[0..] == s;
  }

  /** Before-part, a dot and after-part rebuild any text that has a dot. */
  lemma LastDotRebuilds(s: string)
    requires '.' in s
    ensures BeforeLastDot(s) + "." + AfterLastDot(s) == s
  {
    var k := LastDot(s);
    var j :| 0 <= j < |s| && s[j] == '.';
    assert k >= 0;
    assert s[..k] + [s[k]] + s[k + 1..] == s;
  }

  /** A dot-free `b` joined to `a` by a dot: `a` is before and `b` after the last dot. */
  lemma LastDotOfJoin(a: string, b: string)
    requires '.' !in b
    ensures BeforeLastDot(a + "." + b) == a && AfterLastDot(a + "." + b) == b
  {
    var s := a + "." + b;
    forall j | |a| < j < |s| ensures s[j] != '.' {
      assert s[j] == b[j - |a| - 1];
    }
    LastDotIs(s, |a|);
    assert s[..|a|] == a;
    assert s[|a| + 1..] == b;
  }
}
