/**
 * Presence detection on one page read: the page counts as "present" when any
 * of the check patterns occurs in its HTML as a contiguous piece of text.
 */
module Presence {

  const AvailableNow: string := "Available now"
  const SeenSecondsAgo: string := "Seen seconds ago"
  const CheckPatterns: seq<string> := [AvailableNow, SeenSecondsAgo]

  /** `pat` sits in `text` starting at position `i`. */
  ghost predicate OccursAt(pat: string, text: string, i: int) {
    0 <= i && i + |pat| <= |text| && text[i..i + |pat|] == pat
  }

  ghost predicate Occurs(pat: string, text: string) {
    exists i :: OccursAt(pat, text, i)
  }

  /** Python's `pat in text` on strings: a left-to-right search for a matching window. */
  function Contains(pat: string, text: string): (r: bool)
    ensures pat == [] ==> r
    ensures r ==> |pat| <= |text|
    decreases |text|
  {
    if |pat| > |text| then false
    else if pat <= text then true
    else Contains(pat, text[1..])
  }

  /** `Contains` finds `pat` exactly when it occurs somewhere in `text`. */
  lemma ContainsIff(pat: string, text: string)
    ensures Contains(pat, text) <==> Occurs(pat, text)
  {
    if Contains(pat, text) {
      ContainsSound(pat, text);
    }
    if Occurs(pat, text) {
      var i :| OccursAt(pat, text, i);
      ContainsComplete(pat, text, i);
    }
  }

  lemma {:induction false} ContainsSound(pat: string, text: string)
    requires Contains(pat, text)
    ensures Occurs(pat, text)
    decreases |text|
  {
    if pat <= text {
      assert OccursAt(pat, text, 0);
    } else {
      ContainsSound(pat, text[1..]);
      var i :| OccursAt(pat, text[1..], i);
      assert text[i + 1..i + 1 + |pat|] == text[1..][i..i + |pat|];
      assert OccursAt(pat, text, i + 1);
    }
  }

  lemma {:induction false} ContainsComplete(pat: string, text: string, i: int)
    requires OccursAt(pat, text, i)
    ensures Contains(pat, text)
    decreases |text|
  {
    if !(pat <= text) {
      assert i != 0;
      assert text[1..][i - 1..i - 1 + |pat|] == text[i..i + |pat|];
      ContainsComplete(pat, text[1..], i - 1);
    }
  }

  /** Python's `any(pat in html for pat in patterns)`. */
  function AnyOccurs(patterns: seq<string>, html: string): bool {
    patterns != [] && (Contains(patterns[0], html) || AnyOccurs(patterns[1..], html))
  }

  /** `AnyOccurs` holds exactly when one of the patterns occurs in `html`. */
  lemma {:induction false} AnyOccursIff(patterns: seq<string>, html: string)
    ensures AnyOccurs(patterns, html) <==> exists k :: 0 <= k < |patterns| && Occurs(patterns[k], html)
    decreases |patterns|
  {
    if patterns != [] {
      ContainsIff(patterns[0], html);
      AnyOccursIff(patterns[1..], html);
      if exists k :: 0 <= k < |patterns| && Occurs(patterns[k], html) {
        var k :| 0 <= k < |patterns| && Occurs(patterns[k], html);
        if k > 0 {
          assert patterns[1..][k - 1] == patterns[k];
        }
      }
      if AnyOccurs(patterns[1..], html) {
        var k :| 0 <= k < |patterns| - 1 && Occurs(patterns[1..][k], html);
        assert patterns[k + 1] == patterns[1..][k];
      }
    }
  }

  /** The page read counts as "present". */
  function IsPresent(html: string): (r: bool)
    ensures r <==> Contains(AvailableNow, html) || Contains(SeenSecondsAgo, html)
    ensures r ==> |html| >= |AvailableNow|
  {
    assert CheckPatterns[0] == AvailableNow && CheckPatterns[1..] == [SeenSecondsAgo];
    assert [SeenSecondsAgo][0] == SeenSecondsAgo && [SeenSecondsAgo][1..] == [];
    assert AnyOccurs(CheckPatterns, html) == (Contains(AvailableNow, html) || AnyOccurs([SeenSecondsAgo], html));
    assert AnyOccurs([SeenSecondsAgo], html) == (Contains(SeenSecondsAgo, html) || AnyOccurs([], html));
    AnyOccurs(CheckPatterns, html)
  }

  /** Present exactly when "Available now" or "Seen seconds ago" occurs in the HTML. */
  lemma PresentIff(html: string)
    ensures IsPresent(html) <==> Occurs(AvailableNow, html) || Occurs(SeenSecondsAgo, html)
  {
    AnyOccursIff(CheckPatterns, html);
    assert CheckPatterns[0] == AvailableNow && CheckPatterns[1] == SeenSecondsAgo;
  }
}
