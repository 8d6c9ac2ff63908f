/**
 * `checkCookie` (src/assets/js/scripts.js:2-11) over a cookie string given
 * as a parameter in place of `document.cookie`.
 */
module Cookie {
  import opened Text

  /** `segment.trim().indexOf(name) === 0`: `indexOf` gives 0 exactly when `name` is a prefix. */
  predicate SegmentMatches(segment: string, name: string) {
    name <= Trim(segment)
  }

  /**
   * Reference definition: some `;`-separated segment, trimmed, starts with
   * `name`.
   */
  ghost predicate NameInCookie(cookie: string, name: string) {
    var segments := Split(cookie, ";");
    exists k :: 0 <= k < |segments| && SegmentMatches(segments[k], name)
  }

  /** `checkCookie`: the scan over the segments, returning at the first match. */
  method CheckCookie(cookie: string, cookieName: string) returns (found: bool)
    ensures found <==> NameInCookie(cookie, cookieName)
  {
    var cookies := Split(cookie, ";");
    for i := 0 to |cookies|
      invariant forall k :: 0 <= k < i ==> !SegmentMatches(cookies[k], cookieName)
    {
      if SegmentMatches(cookies[i], cookieName) {
        return true;
      }
    }
    return false;
  }

  /** The empty name is a prefix of the first segment, so it is always found. */
  lemma EmptyNameAlwaysFound(cookie: string)
    ensures NameInCookie(cookie, "")
  {
    var segments := Split(cookie, ";");
    assert SegmentMatches(segments[0], "");
  }

  /** An empty cookie string is one empty segment, which holds no non-empty name. */
  lemma EmptyCookieHoldsNothing(name: string)
    requires name != ""
    ensures !NameInCookie("", name)
  {
    assert Split("", ";") == [""];
    assert !SegmentMatches("", name);
  }

  /** A cookie string whose `k`-th segment matches holds the name. */
  lemma MatchAt(cookie: string, k: nat, name: string)
    requires k < |Split(cookie, ";")| && SegmentMatches(Split(cookie, ";")[k], name)
    ensures NameInCookie(cookie, name)
  {
  }

  /** A padded or unpadded segment `name + rest` matches `name`. */
  lemma PrefixSegmentMatches(name: string, rest: string)
    requires name + rest != [] ==> !IsJsSpace((name + rest)[0]) && !IsJsSpace((name + rest)[|name + rest| - 1])
    ensures SegmentMatches(name + rest, name) && SegmentMatches(" " + (name + rest), name)
  {
    TrimUnpadded(name + rest);
    TrimLeadingSpace(' ', name + rest);
  }

  /**
   * The test is on a prefix, not on the cookie's name: a segment
   * `visitedAt=1` (`name` = "visited", `rest` = "At=1") counts as the
   * cookie `visited` wherever it stands: first, last, or between any
   * earlier and later segments.
   */
  lemma PrefixIsEnough(front: string, name: string, rest: string, back: string)
    requires Free(name + rest, ';')
    requires name + rest != [] ==> !IsJsSpace((name + rest)[0]) && !IsJsSpace((name + rest)[|name + rest| - 1])
    ensures NameInCookie(name + rest + ";" + back, name)
    ensures NameInCookie(front + "; " + name + rest, name)
    ensures NameInCookie(front + "; " + name + rest + ";" + back, name)
  {
    PrefixSegmentMatches(name, rest);
    FreeConcat(" ", name + rest, ';');
    FirstPlace(name, rest, back);
    LastPlace(front, name, rest);
    MiddlePlace(front, name, rest, back);
  }

  /** A matching first segment, whatever follows. */
  lemma FirstPlace(name: string, rest: string, back: string)
    requires Free(name + rest, ';') && SegmentMatches(name + rest, name)
    ensures NameInCookie(name + rest + ";" + back, name)
  {
    SplitAfterFree(name + rest, ";", back);
    MatchAt(name + rest + ";" + back, 0, name);
  }

  /** A matching last segment after `; `, whatever precedes it. */
  lemma LastPlace(front: string, name: string, rest: string)
    requires Free(" " + (name + rest), ';') && SegmentMatches(" " + (name + rest), name)
    ensures NameInCookie(front + "; " + name + rest, name)
  {
    var padded := " " + (name + rest);
    assert front + "; " + name + rest == front + ";" + padded;
    SplitFree(padded, ";");
    SplitConcat(front, ';', padded);
    MatchAt(front + ";" + padded, |Split(front, ";")|, name);
  }

  /** A matching segment after `; `, between any earlier and later segments. */
  lemma MiddlePlace(front: string, name: string, rest: string, back: string)
    requires Free(" " + (name + rest), ';') && SegmentMatches(" " + (name + rest), name)
    ensures NameInCookie(front + "; " + name + rest + ";" + back, name)
  {
    var padded := " " + (name + rest);
    var after := padded + ";" + back;
    assert front + "; " + name + rest + ";" + back == front + ";" + after;
    SplitAfterFree(padded, ";", back);
    SplitConcat(front, ';', after);
    MatchAt(front + ";" + after, |Split(front, ";")|, name);
  }

  /** Reordering the segments of a cookie string does not change the answer. */
  lemma OrderIrrelevant(segments: seq<string>, reordered: seq<string>, name: string)
    requires |segments| >= 1
    requires forall k :: 0 <= k < |segments| ==> Free(segments[k], ';')
    requires multiset(segments) == multiset(reordered)
    ensures NameInCookie(Join(segments, ";"), name) <==> NameInCookie(Join(reordered, ";"), name)
  {
    assert forall k :: 0 <= k < |reordered| ==> reordered[k] in multiset(segments);
    assert |reordered| == |segments| by {
      assert |multiset(reordered)| == |multiset(segments)|;
    }
    SplitJoin(segments, ";");
    SplitJoin(reordered, ";");
    if NameInCookie(Join(segments, ";"), name) {
      var k :| 0 <= k < |segments| && SegmentMatches(segments[k], name);
      assert segments[k] in multiset(reordered);
      var j :| 0 <= j < |reordered| && reordered[j] == segments[k];
      assert SegmentMatches(Split(Join(reordered, ";"), ";")[j], name);
    }
    if NameInCookie(Join(reordered, ";"), name) {
      var j :| 0 <= j < |reordered| && SegmentMatches(reordered[j], name);
      assert reordered[j] in multiset(segments);
      var k :| 0 <= k < |segments| && segments[k] == reordered[j];
      assert SegmentMatches(Split(Join(segments, ";"), ";")[k], name);
    }
  }
}
