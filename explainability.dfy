/**
  The feature-name cleaning of `_get_clean_feature_names`
  (src/explainability.py:5): each name the preprocessor reports has every
  `"remainder__"`, then every `"cat__"`, then every `"ath__"` deleted, in
  three passes of Python's `str.replace(old, "")`. The list of names is an
  input here; where it comes from is not part of this model.
 */
module Explainability {
  import opened Seqs

  const RemainderPattern: string := "remainder__"
  const CatPattern: string := "cat__"
  const AthPattern: string := "ath__"

  /** `pat` occurs in `s` at position 0 or later. */
  predicate Contains(s: string, pat: string)
    decreases |s|
  {
    |s| >= |pat| && (s[..|pat|] == pat || (|s| > 0 && Contains(s[1..], pat)))
  }

  /** `pat` occurs in `s` starting at position `i`. */
  predicate OccursAt(s: string, pat: string, i: int) {
    0 <= i && i + |pat| <= |s| && s[i..i + |pat|] == pat
  }

  /** `Contains` says that `pat` occurs at some position of `s`. */
  lemma {:induction false} ContainsAt(s: string, pat: string)
    ensures Contains(s, pat) <==> exists i :: OccursAt(s, pat, i)
    decreases |s|
  {
    if |s| >= |pat| && |s| > 0 {
      ContainsAt(s[1..], pat);
      if exists i :: OccursAt(s, pat, i) {
        var i :| OccursAt(s, pat, i);
        if i > 0 {
          assert s[1..][i - 1..i - 1 + |pat|] == s[i..i + |pat|];
          assert OccursAt(s[1..], pat, i - 1);
        } else {
          assert s[..|pat|] == s[i..i + |pat|];
        }
      }
      if Contains(s[1..], pat) {
        var i :| OccursAt(s[1..], pat, i);
        assert s[i + 1..i + 1 + |pat|] == s[1..][i..i + |pat|];
        assert OccursAt(s, pat, i + 1);
      }
      if s[..|pat|] == pat {
        assert OccursAt(s, pat, 0);
      }
    } else if |s| >= |pat| {
      assert s[..|pat|] == s[0..0 + |pat|];
      if s[..|pat|] == pat {
        assert OccursAt(s, pat, 0);
      }
    }
  }

  /** An occurrence matches `pat` character by character. */
  lemma OccursAtChars(s: string, pat: string, i: int, k: int)
    requires OccursAt(s, pat, i) && 0 <= k < |pat|
    ensures s[i + k] == pat[k]
  {
    assert s[i..i + |pat|][k] == s[i + k];
  }

  /** A string missing some character of `pat` does not contain `pat`. */
  lemma MissingChar(s: string, pat: string, k: int)
    requires 0 <= k < |pat| && pat[k] !in s
    ensures !Contains(s, pat)
  {
    ContainsAt(s, pat);
    if exists i :: OccursAt(s, pat, i) {
      var i :| OccursAt(s, pat, i);
      OccursAtChars(s, pat, i, k);
    }
  }

  /**
    `s.replace(pat, "")`: scanning left to right, every occurrence of `pat`
    that does not overlap an earlier deleted one is deleted. A string without
    `pat` comes back unchanged, and one with it loses at least `|pat|`
    characters.
   */
  function RemoveAll(s: string, pat: string): (r: string)
    requires |pat| > 0
    ensures |r| <= |s|
    ensures !Contains(s, pat) ==> r == s
    ensures Contains(s, pat) ==> |r| + |pat| <= |s|
    decreases |s|
  {
    if |s| < |pat| then s
    else if s[..|pat|] == pat then RemoveAll(s[|pat|..], pat)
    else [s[0]] + RemoveAll(s[1..], pat)
  }

  /** A string that starts with `pat` loses that occurrence and is cleaned from there on. */
  lemma RemoveAllLeading(pat: string, t: string)
    requires |pat| > 0
    ensures RemoveAll(pat + t, pat) == RemoveAll(t, pat)
  {
    assert (pat + t)[..|pat|] == pat;
    assert (pat + t)[|pat|..] == t;
  }

  /** One feature name with every occurrence of the three patterns deleted, one pattern after the other. */
  function CleanName(name: string): string {
    RemoveAll(RemoveAll(RemoveAll(name, RemainderPattern), CatPattern), AthPattern)
  }

  /**
    Cleaning never lengthens a name, and leaves it unchanged exactly when
    none of the three patterns occurs anywhere in it.
   */
  lemma CleanNameSpec(name: string)
    ensures |CleanName(name)| <= |name|
    ensures CleanName(name) == name <==>
      !Contains(name, RemainderPattern) && !Contains(name, CatPattern) && !Contains(name, AthPattern)
  {
  }

  function CleanNameFn(): string -> string {
    (name: string) => CleanName(name)
  }

  /** `[name.replace(...).replace(...).replace(...) for name in feature_names]`. */
  function CleanNames(names: seq<string>): seq<string> {
    Map(names, CleanNameFn())
  }

  /** The list keeps its length and each name is cleaned on its own, in place. */
  lemma CleanNamesSpec(names: seq<string>)
    ensures |CleanNames(names)| == |names|
    ensures forall i :: 0 <= i < |names| ==>
      CleanNames(names)[i] == CleanName(names[i]) && |CleanNames(names)[i]| <= |names[i]|
  {
    forall i | 0 <= i < |names| ensures |CleanNames(names)[i]| <= |names[i]| {
      CleanNameSpec(names[i]);
    }
  }

  /** `"remainder__comp_rank"` becomes `"comp_rank"`. */
  lemma CleanRemainderExample()
    ensures CleanName("remainder__comp_rank") == "comp_rank"
  {
    RemoveAllLeading(RemainderPattern, "comp_rank");
    assert RemainderPattern + "comp_rank" == "remainder__comp_rank";
    MissingChar("comp_rank", RemainderPattern, 1);
    MissingChar("comp_rank", CatPattern, 2);
    MissingChar("comp_rank", AthPattern, 1);
  }

  /** `"cat__dcat_lead"` becomes `"dcat_lead"`. */
  lemma CleanCatExample()
    ensures CleanName("cat__dcat_lead") == "dcat_lead"
  {
    assert "cat__dcat_lead" == CatPattern + "dcat_lead";
    MissingChar("cat__dcat_lead", RemainderPattern, 0);
    RemoveAllLeading(CatPattern, "dcat_lead");
    DcatLeadIsClean();
  }

  /** `"dcat_lead"` holds neither `"cat__"` nor `"ath__"`. */
  lemma DcatLeadIsClean()
    ensures !Contains("dcat_lead", CatPattern) && !Contains("dcat_lead", AthPattern)
  {
    DcatLeadHasNoCat();
    MissingChar("dcat_lead", AthPattern, 2);
  }

  lemma DcatLeadHasNoCat()
    ensures !Contains("dcat_lead", CatPattern)
  {
    assert "dcat_lead" == "dcat" + "_" + "lead";
    NoDoubleUnderscore("dcat", "lead");
  }

  /** Text with a single underscore, between two parts without one, does not contain `"cat__"`. */
  lemma NoDoubleUnderscore(a: string, b: string)
    requires '_' !in a && '_' !in b
    ensures !Contains(a + "_" + b, CatPattern)
  {
    var s := a + "_" + b;
    ContainsAt(s, CatPattern);
    if exists i :: OccursAt(s, CatPattern, i) {
      var i :| OccursAt(s, CatPattern, i);
      OccursAtChars(s, CatPattern, i, 3);
      OccursAtChars(s, CatPattern, i, 4);
    }
  }

  /**
    Each pass is a single left-to-right scan, so deleting an occurrence can
    join the text around it into a new one that stays: `"catcat____"` becomes
    `"cat__"`.
   */
  lemma SinglePassKeepsJoinedPattern()
    ensures CleanName("catcat____") == "cat__"
    ensures Contains(CleanName("catcat____"), CatPattern)
  {
    MissingChar("catcat____", RemainderPattern, 1);
    CatcatCatPass();
    MissingChar("cat__", AthPattern, 2);
    assert "cat__"[..5] == CatPattern;
  }

  /** The `"cat__"` pass over `"catcat____"` deletes the one occurrence, at position 3. */
  lemma CatcatCatPass()
    ensures RemoveAll("catcat____", CatPattern) == "cat__"
  {
    var s := "catcat____";
    assert s[..5][4] == 'a';
    assert s[1..][..5][0] == 'a';
    assert s[2..][..5][0] == 't';
    assert s[3..] == CatPattern + "__";
    RemoveAllLeading(CatPattern, "__");
  }
}
