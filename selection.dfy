/** Which files the walker watches: those whose name passes the regular
    expression test `/.*\.(less)$/.test(name)`. */
module Selection {

  /** The characters JavaScript's `.` does not match. */
  predicate IsLineTerminator(c: char) {
    c == '\n' || c == '\r' || c == '\U{2028}' || c == '\U{2029}'
  }

  /** `s` is matched by `.*`. */
  ghost predicate DotStar(s: string) {
    forall k :: 0 <= k < |s| ==> !IsLineTerminator(s[k])
  }

  /** The pattern `.*\.(less)$` matches `name` from position `i`, its `.*` part
      covering `name[i..j]`; without the `m` flag `$` only matches at the end. */
  ghost predicate MatchesAt(name: string, i: int, j: int) {
    0 <= i <= j <= |name| && DotStar(name[i..j]) && name[j..] == ".less"
  }

  /** `RegExp.prototype.test`: the unanchored pattern matches somewhere. */
  ghost predicate PatternTest(name: string) {
    exists i, j :: MatchesAt(name, i, j)
  }

  /** The selection test as the watcher evaluates it: the name ends in `.less`. */
  predicate IsLessFile(name: string) {
    |name| >= 5 && name[|name| - 5..] == ".less"
  }

  /** The regular expression accepts exactly the names ending in `.less`,
      compared case-sensitively; there is no exclusion of names starting with `_`. */
  lemma {:induction false} PatternTestIsSuffix(name: string)
    ensures PatternTest(name) <==> IsLessFile(name)
  {
    if IsLessFile(name) {
      var j := |name| - 5;
      assert name[j..j] == "";
      assert MatchesAt(name, j, j);
    }
    if PatternTest(name) {
      var i, j :| MatchesAt(name, i, j);
      assert |name[j..]| == 5;
      assert j == |name| - 5;
    }
  }

  /** Sample names accepted and rejected by the test. */
  lemma SelectionExamples()
    ensures IsLessFile("base.less") && IsLessFile("_mixins.less") && IsLessFile(".less")
    ensures !IsLessFile("base.css") && !IsLessFile("base.LESS") && !IsLessFile("less")
  {
  }

  /** Selection only looks at the end of the name: any prefix may be put in front
      of a selected name. */
  lemma SelectedUnderPrefix(prefix: string, name: string)
    requires IsLessFile(name)
    ensures IsLessFile(prefix + name)
  {
    assert (prefix + name)[|prefix + name| - 5..] == name[|name| - 5..];
  }
}
