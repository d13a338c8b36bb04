/**
 * Deriving the download's file name from the score's title: the title read
 * from the host page's score data, with every run of characters outside the
 * regular-expression class `\w` replaced by an underscore.
 */
module FileNames {
  import opened Wrappers
  import opened WordChars

  /** The part of the host page's score data that the title is read from */
  datatype ScoreMetadata = ScoreMetadata(title: Option<string>)

  /**
   * `getTitle`: `metadata` is `None` when the score data's metadata object
   * cannot be reached (the property access throws and the value is `""`);
   * a result of `None` is the `undefined` of an absent `title` field.
   */
  function GetTitle(metadata: Option<ScoreMetadata>): (t: Option<string>)
    ensures metadata.None? ==> t == Some("")
    ensures metadata.Some? ==> t == metadata.value.title
  {
    match metadata
    case None => Some("")
    case Some(m) => m.title
  }

  /** `s` without its leading run of non-word characters */
  function SkipNonWord(s: string): (r: string)
    ensures |r| <= |s|
  {
    if s == [] || IsWordChar(s[0]) then s else SkipNonWord(s[1..])
  }

  /** What `SkipNonWord` drops is a run of non-word characters, and what it keeps starts with a word character */
  lemma {:induction false} SkipNonWordSplits(s: string)
    ensures var r := SkipNonWord(s);
      && r == s[|s| - |r|..]
      && (forall k :: 0 <= k < |s| - |r| ==> !IsWordChar(s[k]))
      && (r == [] || IsWordChar(r[0]))
    decreases |s|
  {
    if s != [] && !IsWordChar(s[0]) {
      SkipNonWordSplits(s[1..]);
      assert forall k :: 0 < k < |s| ==> s[1..][k - 1] == s[k];
      assert s[1..][|s| - 1 - |SkipNonWord(s)|..] == s[|s| - |SkipNonWord(s)|..];
    } else if s != [] {
      assert s[0..] == s;
    }
  }

  /**
   * The global replacement of non-word runs by `_`: scanning left to right,
   * a word character is copied and a maximal run of non-word characters is
   * replaced by one `_`.
   */
  function Sanitize(s: string): (r: string)
    ensures |r| <= |s|
    ensures r == [] <==> s == []
    decreases |s|
  {
    if s == [] then []
    else if IsWordChar(s[0]) then [s[0]] + Sanitize(s[1..])
    else "_" + Sanitize(SkipNonWord(s[1..]))
  }

  /**
   * `getScoreFileName`: `None` when the title is `undefined`, where calling
   * `replace` on it throws.
   */
  function ScoreFileName(metadata: Option<ScoreMetadata>): (name: Option<string>)
    ensures metadata.None? ==> name == Some("")
    ensures name.Some? ==> AllWord(name.value)
    ensures name.Some? <==> GetTitle(metadata).Some?
    ensures name.Some? ==> name.value == Sanitize(GetTitle(metadata).value)
  {
    match GetTitle(metadata)
    case None => None
    case Some(title) =>
      SanitizeAllWord(title);
      Some(Sanitize(title))
  }

  /** The file name holds word characters only */
  lemma {:induction false} SanitizeAllWord(s: string)
    ensures AllWord(Sanitize(s))
    decreases |s|
  {
    if s != [] {
      if IsWordChar(s[0]) {
        SanitizeAllWord(s[1..]);
        var r := Sanitize(s[1..]);
        assert forall k :: 0 < k < |r| + 1 ==> ([s[0]] + r)[k] == r[k - 1];
      } else {
        var rest := SkipNonWord(s[1..]);
        SanitizeAllWord(rest);
        var r := Sanitize(rest);
        assert forall k :: 0 < k < |r| + 1 ==> ("_" + r)[k] == r[k - 1];
      }
    }
  }

  // ---------------------------------------------------------------------
  // An independent, position-by-position description of the same rewrite

  /**
   * What position `i` of `s` contributes to the file name: a word character
   * itself, the first character of a non-word run one `_`, and every other
   * character of a non-word run nothing.
   */
  function Contribution(s: string, i: nat): string
    requires i < |s|
  {
    if IsWordChar(s[i]) then [s[i]]
    else if i == 0 || IsWordChar(s[i - 1]) then "_"
    else ""
  }

  /** The contributions of positions `i`, `i + 1`, ..., `|s| - 1`, in order */
  function ContributionsFrom(s: string, i: nat): string
    requires i <= |s|
    decreases |s| - i
  {
    if i == |s| then "" else Contribution(s, i) + ContributionsFrom(s, i + 1)
  }

  /** Inside a non-word run, positions after its first contribute nothing */
  lemma {:induction false} RunTailContributesNothing(s: string, k: nat, j: nat)
    requires 0 < k <= j <= |s|
    requires forall m :: k - 1 <= m < j ==> !IsWordChar(s[m])
    ensures ContributionsFrom(s, k) == ContributionsFrom(s, j)
    decreases j - k
  {
    if k < j {
      assert Contribution(s, k) == "";
      RunTailContributesNothing(s, k + 1, j);
    }
  }

  /** `Sanitize` of a suffix that does not start inside a non-word run */
  lemma {:induction false} SanitizeSuffix(s: string, i: nat)
    requires i <= |s|
    requires i == 0 || i == |s| || IsWordChar(s[i - 1]) || IsWordChar(s[i])
    ensures Sanitize(s[i..]) == ContributionsFrom(s, i)
    decreases |s| - i, 1
  {
    if i < |s| {
      var t := s[i..];
      assert t[0] == s[i] && t[1..] == s[i + 1..];
      if IsWordChar(s[i]) {
        assert Sanitize(t) == [s[i]] + Sanitize(s[i + 1..]);
        assert ContributionsFrom(s, i) == [s[i]] + ContributionsFrom(s, i + 1);
        SanitizeSuffix(s, i + 1);
      } else {
        assert Sanitize(t) == "_" + Sanitize(SkipNonWord(s[i + 1..]));
        assert ContributionsFrom(s, i) == "_" + ContributionsFrom(s, i + 1);
        SanitizeAfterRunStart(s, i);
      }
    }
  }

  /** Where the non-word run after position `i` ends: `SkipNonWord` resumes there */
  lemma RunEnd(s: string, i: nat) returns (j: nat)
    requires i < |s|
    ensures i + 1 <= j <= |s|
    ensures SkipNonWord(s[i + 1..]) == s[j..]
    ensures forall m :: i + 1 <= m < j ==> !IsWordChar(s[m])
    ensures j < |s| ==> IsWordChar(s[j])
  {
    var u := s[i + 1..];
    var rest := SkipNonWord(u);
    SkipNonWordSplits(u);
    j := i + 1 + (|u| - |rest|);
    assert rest == s[j..] by {
      assert rest == u[|u| - |rest|..];
      assert u[|u| - |rest|..] == s[j..];
    }
    assert forall d :: 0 <= d < j - (i + 1) ==> !IsWordChar(u[d]);
    assert forall m :: i + 1 <= m < j ==> s[m] == u[m - (i + 1)];
    assert j < |s| ==> s[j] == rest[0];
  }

  /** After the first character of a non-word run, the run is skipped */
  lemma {:induction false} SanitizeAfterRunStart(s: string, i: nat)
    requires i < |s| && !IsWordChar(s[i])
    ensures Sanitize(SkipNonWord(s[i + 1..])) == ContributionsFrom(s, i + 1)
    decreases |s| - i, 0
  {
    var j := RunEnd(s, i);
    RunTailContributesNothing(s, i + 1, j);
    SanitizeSuffix(s, j);
  }

  /**
   * The file name is the concatenation, in input order, of what each
   * position of the title contributes: word characters are kept in order
   * and each maximal non-word run becomes exactly one `_`.
   */
  lemma SanitizeByPosition(s: string)
    ensures Sanitize(s) == ContributionsFrom(s, 0)
  {
    SanitizeSuffix(s, 0);
    assert s[0..] == s;
  }

  /** A string made of word characters only is left as it is */
  lemma {:induction false} SanitizeKeepsWords(s: string)
    requires AllWord(s)
    ensures Sanitize(s) == s
    decreases |s|
  {
    if s != [] {
      assert AllWord(s[1..]) by {
        forall k | 0 <= k < |s| - 1 ensures IsWordChar(s[1..][k]) { assert s[1..][k] == s[k + 1]; }
      }
      SanitizeKeepsWords(s[1..]);
    }
  }

  /** `getScoreFileName` is idempotent */
  lemma SanitizeIdempotent(s: string)
    ensures Sanitize(Sanitize(s)) == Sanitize(s)
  {
    SanitizeAllWord(s);
    SanitizeKeepsWords(Sanitize(s));
  }

  /** The rewrite changes a title exactly when it holds a non-word character */
  lemma SanitizeUnchangedIff(s: string)
    ensures Sanitize(s) == s <==> AllWord(s)
  {
    if AllWord(s) { SanitizeKeepsWords(s); } else { SanitizeAllWord(s); }
  }

  /** A leading run of word characters is copied unchanged */
  lemma {:induction false} SanitizeWordPrefix(w: string, s: string)
    requires AllWord(w)
    ensures Sanitize(w + s) == w + Sanitize(s)
    decreases |w|
  {
    if w != [] {
      assert (w + s)[0] == w[0] && (w + s)[1..] == w[1..] + s;
      assert w == [w[0]] + w[1..];
      assert AllWord(w[1..]) by {
        forall k | 0 <= k < |w| - 1 ensures IsWordChar(w[1..][k]) { assert w[1..][k] == w[k + 1]; }
      }
      SanitizeWordPrefix(w[1..], s);
      assert IsWordChar(w[0]);
      calc {
        Sanitize(w + s);
        [w[0]] + Sanitize(w[1..] + s);
        [w[0]] + (w[1..] + Sanitize(s));
        w + Sanitize(s);
      }
    } else {
      assert w + s == s;
    }
  }

  /** A leading maximal run of non-word characters becomes a single `_` */
  lemma SanitizeRunPrefix(run: string, s: string)
    requires run != [] && forall k :: 0 <= k < |run| ==> !IsWordChar(run[k])
    requires s == [] || IsWordChar(s[0])
    ensures Sanitize(run + s) == "_" + Sanitize(s)
  {
    var t := run + s;
    assert t[0] == run[0] && t[1..] == run[1..] + s;
    assert forall k :: 0 <= k < |run| - 1 ==> run[1..][k] == run[k + 1];
    SkipRun(run[1..], s);
    assert Sanitize(t) == "_" + Sanitize(SkipNonWord(t[1..]));
  }

  lemma {:induction false} SkipRun(run: string, s: string)
    requires forall k :: 0 <= k < |run| ==> !IsWordChar(run[k])
    requires s == [] || IsWordChar(s[0])
    ensures SkipNonWord(run + s) == s
    decreases |run|
  {
    if run != [] {
      assert (run + s)[1..] == run[1..] + s;
      SkipRun(run[1..], s);
    } else {
      assert run + s == s;
    }
  }
}
