/**
 * Detecting the page images' format from the sample page image's URL
 * (`getImgType`, and the `svg` default that `main` falls back to when
 * nothing is detected) and building the list of per-page image URLs
 * (`svgURLs` in `main`).
 */
module ImageUrls {
  import opened Wrappers
  import opened WordChars

  /**
   * The host page's already-rendered page image (`img[id^=score_]`): the
   * pathname of its `src` URL and its natural size in pixels.
   */
  datatype SampleImage = SampleImage(pathname: string, naturalWidth: nat, naturalHeight: nat)

  /** Where the longest run of word characters that ends `s` begins */
  function TrailingWordStart(s: string): (k: nat)
    ensures k <= |s|
    ensures AllWord(s[k..])
    ensures k > 0 ==> !IsWordChar(s[k - 1])
  {
    if s == [] || !IsWordChar(s[|s| - 1]) then |s|
    else
      var k := TrailingWordStart(s[..|s| - 1]);
      assert forall m :: k <= m < |s| - 1 ==> s[m] == s[..|s| - 1][k..][m - k];
      assert forall m :: k <= m < |s| ==> s[k..][m - k] == s[m];
      k
  }

  /** The extension pattern (a `.` followed by one or more word characters that end the path) matches `path` at position `k` */
  predicate MatchesAt(path: string, k: nat) {
    k + 1 < |path| && path[k] == '.' && AllWord(path[k + 1..])
  }

  /**
   * The word characters captured after the final `.` of the pathname, or
   * `None` when the extension pattern does not match (reading the capture
   * of a missing match throws, and `getImgType` returns `null`).
   */
  function MatchExtension(path: string): (ext: Option<string>)
    ensures ext.Some? ==> ext.value != [] && AllWord(ext.value)
  {
    var k := TrailingWordStart(path);
    if 0 < k < |path| && path[k - 1] == '.' then Some(path[k..]) else None
  }

  /** A match found is a match of the pattern */
  lemma MatchExtensionSound(path: string)
    requires MatchExtension(path).Some?
    ensures var ext := MatchExtension(path).value;
      |ext| < |path| && MatchesAt(path, |path| - |ext| - 1) && ext == path[|path| - |ext|..]
  {
  }

  /**
   * Wherever the pattern matches, `MatchExtension` returns exactly the
   * characters after that `.`: the pattern can match at one place only.
   */
  lemma MatchExtensionComplete(path: string, k: nat)
    requires MatchesAt(path, k)
    ensures MatchExtension(path) == Some(path[k + 1..])
  {
    var j := TrailingWordStart(path);
    assert forall m :: k + 1 <= m < |path| ==> path[m] == path[k + 1..][m - (k + 1)];
    assert forall m :: j <= m < |path| ==> path[m] == path[j..][m - j];
  }

  /** No match at all exactly when `MatchExtension` gives `None` */
  lemma MatchExtensionNone(path: string)
    ensures MatchExtension(path).None? <==> forall k: nat :: !MatchesAt(path, k)
  {
    if MatchExtension(path).Some? {
      MatchExtensionSound(path);
    } else {
      forall k: nat ensures !MatchesAt(path, k) {
        if MatchesAt(path, k) { MatchExtensionComplete(path, k); }
      }
    }
  }

  /** A path ending in `.` and a non-empty word yields that word */
  lemma ExtensionOfSuffix(prefix: string, ext: string)
    requires ext != [] && AllWord(ext)
    ensures MatchExtension(prefix + "." + ext) == Some(ext)
  {
    var path := prefix + "." + ext;
    assert path[|prefix| + 1..] == ext;
    MatchExtensionComplete(path, |prefix|);
  }

  /** `getImgType()`: `None` also when the page has no sample image */
  function DetectImgType(sample: Option<SampleImage>): (t: Option<string>)
    ensures sample.None? ==> t.None?
    ensures sample.Some? ==> t == MatchExtension(sample.value.pathname)
  {
    match sample
    case None => None
    case Some(img) => MatchExtension(img.pathname)
  }

  /** The type `main` puts in the page URLs: the detected one, `svg` when none is detected */
  function EffectiveImgType(sample: Option<SampleImage>): (t: string)
    ensures t != [] && AllWord(t)
    ensures DetectImgType(sample).None? ==> t == "svg"
    ensures DetectImgType(sample).Some? ==> t == DetectImgType(sample).value
  {
    DetectImgType(sample).GetOr("svg")
  }

  // ---------------------------------------------------------------------
  // The page index in a template literal: decimal, without leading zeros

  function DigitChar(d: nat): (c: char)
    requires d < 10
    ensures IsDigit(c)
  {
    ('0' as int + d) as char
  }

  function DigitValue(c: char): (d: nat)
    requires IsDigit(c)
    ensures d < 10
    ensures DigitChar(d) == c
  {
    c as int - '0' as int
  }

  /** `${n}` for a non-negative integer `n` */
  function NatToString(n: nat): (r: string)
    ensures r != [] && forall k :: 0 <= k < |r| ==> IsDigit(r[k])
    ensures r[0] == '0' <==> n == 0
    decreases n
  {
    if n < 10 then [DigitChar(n)] else NatToString(n / 10) + [DigitChar(n % 10)]
  }

  /** The value of a string of decimal digits */
  function DecimalValue(s: string): nat
    requires forall k :: 0 <= k < |s| ==> IsDigit(s[k])
  {
    if s == [] then 0 else DecimalValue(s[..|s| - 1]) * 10 + DigitValue(s[|s| - 1])
  }

  /** Reading back the decimal form of `n` gives `n` */
  lemma {:induction false} NatToStringRoundTrip(n: nat)
    ensures DecimalValue(NatToString(n)) == n
    decreases n
  {
    var r := NatToString(n);
    if n >= 10 {
      assert r[..|r| - 1] == NatToString(n / 10);
      NatToStringRoundTrip(n / 10);
    }
  }

  /** Distinct page indices are written differently */
  lemma NatToStringInjective(a: nat, b: nat)
    requires NatToString(a) == NatToString(b)
    ensures a == b
  {
    NatToStringRoundTrip(a);
    NatToStringRoundTrip(b);
  }

  // ---------------------------------------------------------------------
  // The page URL list

  /**
   * One URL per page index `i`, in index order: the base URL, then
   * `score_`, the decimal index, a `.` and the image type.
   */
  function PageUrls(baseUrl: string, pages: nat, imgType: string): (urls: seq<string>)
    ensures |urls| == pages
    ensures forall i :: 0 <= i < pages ==> urls[i] == baseUrl + "score_" + NatToString(i) + "." + imgType
  {
    seq(pages, i requires 0 <= i < pages => baseUrl + "score_" + NatToString(i) + "." + imgType)
  }

  /** Every page gets its own URL */
  lemma PageUrlsDistinct(baseUrl: string, pages: nat, imgType: string, i: nat, j: nat)
    requires i < pages && j < pages && i != j
    ensures PageUrls(baseUrl, pages, imgType)[i] != PageUrls(baseUrl, pages, imgType)[j]
  {
    var urls := PageUrls(baseUrl, pages, imgType);
    var a, b := NatToString(i), NatToString(j);
    if urls[i] == urls[j] {
      var pre, post := baseUrl + "score_", "." + imgType;
      assert urls[i] == pre + (a + post) && urls[j] == pre + (b + post);
      assert (pre + (a + post))[|pre|..] == a + post;
      assert (pre + (b + post))[|pre|..] == b + post;
      assert |a| == |b|;
      assert a == (a + post)[..|a|] && b == (b + post)[..|b|];
      NatToStringInjective(i, j);
    }
  }

  /**
   * The image of page `i` ends in `score_<i>.<imgType>`, so wherever its
   * pathname starts, detecting its format gives `imgType` back.
   */
  lemma PageImageRedetected(pathPrefix: string, i: nat, imgType: string)
    requires imgType != [] && AllWord(imgType)
    ensures MatchExtension(pathPrefix + "score_" + NatToString(i) + "." + imgType) == Some(imgType)
  {
    ExtensionOfSuffix(pathPrefix + "score_" + NatToString(i), imgType);
  }

  /**
   * The URLs `main` builds use the detected format when there is one and
   * `svg` otherwise, and a page image at any of them is detected as that
   * same format.
   */
  lemma MainPageUrlsFormat(sample: Option<SampleImage>, baseUrl: string, pages: nat, pathPrefix: string, i: nat)
    requires i < pages
    ensures var t := EffectiveImgType(sample);
      && PageUrls(baseUrl, pages, t)[i] == baseUrl + "score_" + NatToString(i) + "." + t
      && (DetectImgType(sample).None? ==> t == "svg")
      && MatchExtension(pathPrefix + "score_" + NatToString(i) + "." + t) == Some(t)
  {
    PageImageRedetected(pathPrefix, i, EffectiveImgType(sample));
  }
}
