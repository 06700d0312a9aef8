/**
 * The asset-URL resolver of `renderNasaImages`: from the hrefs of an item's
 * asset listing it picks the first `~orig` image, else the first JPEG/PNG,
 * else the first href, else the empty string.
 */
module AssetResolver {
  import opened Wrappers
  import opened Text

  /** The two patterns of the `find` chain, in priority order. */
  datatype Tier = Original | Raster

  /** `/~orig\.(jpg|jpeg|png|tif)$/i` and `/\.(jpg|jpeg|png)$/i`. */
  predicate Matches(tier: Tier, h: string): (b: bool)
    ensures b ==> 4 <= |h|
    ensures b && tier == Original ==> 9 <= |h|
  {
    match tier
    case Original =>
      EndsWithIgnoreCase(h, "~orig.jpg") || EndsWithIgnoreCase(h, "~orig.jpeg")
      || EndsWithIgnoreCase(h, "~orig.png") || EndsWithIgnoreCase(h, "~orig.tif")
    case Raster =>
      EndsWithIgnoreCase(h, ".jpg") || EndsWithIgnoreCase(h, ".jpeg") || EndsWithIgnoreCase(h, ".png")
  }

  /** The patterns ignore case: hrefs that differ only in the case of ASCII letters match alike. */
  lemma MatchesIgnoresCase(tier: Tier, h: string, g: string)
    requires |h| == |g| && forall k :: 0 <= k < |h| ==> LowerAscii(h[k]) == LowerAscii(g[k])
    ensures Matches(tier, h) <==> Matches(tier, g)
  {
    EndsWithSameLowered(h, g, "~orig.jpg");
    EndsWithSameLowered(h, g, "~orig.jpeg");
    EndsWithSameLowered(h, g, "~orig.png");
    EndsWithSameLowered(h, g, "~orig.tif");
    EndsWithSameLowered(h, g, ".jpg");
    EndsWithSameLowered(h, g, ".jpeg");
    EndsWithSameLowered(h, g, ".png");
  }

  lemma EndsWithSameLowered(h: string, g: string, suffix: string)
    requires |h| == |g| && forall k :: 0 <= k < |h| ==> LowerAscii(h[k]) == LowerAscii(g[k])
    ensures EndsWithIgnoreCase(h, suffix) <==> EndsWithIgnoreCase(g, suffix)
  {
    if |suffix| <= |h| {
      forall k | 0 <= k < |suffix|
        ensures LowerAscii(h[|h| - |suffix| + k]) == suffix[k] <==> LowerAscii(g[|g| - |suffix| + k]) == suffix[k]
      {
      }
    }
  }

  /** Every `~orig` image except a `.tif` is also a JPEG/PNG; a `~orig.tif` is not. */
  lemma OriginalAlsoRaster(h: string)
    requires Matches(Original, h)
    ensures Matches(Raster, h) <==> !EndsWithIgnoreCase(h, "~orig.tif")
  {
    if EndsWithIgnoreCase(h, "~orig.tif") {
      EndsWithLast(h, "~orig.tif");
      assert "~orig.tif"[8] == 'f';
      if EndsWithIgnoreCase(h, ".jpg") {
        EndsWithLast(h, ".jpg");
      } else if EndsWithIgnoreCase(h, ".jpeg") {
        EndsWithLast(h, ".jpeg");
      } else if EndsWithIgnoreCase(h, ".png") {
        EndsWithLast(h, ".png");
      }
    } else if EndsWithIgnoreCase(h, "~orig.jpg") {
      EndsWithTail(h, "~orig.jpg", 5);
      assert "~orig.jpg"[5..] == ".jpg";
    } else if EndsWithIgnoreCase(h, "~orig.jpeg") {
      EndsWithTail(h, "~orig.jpeg", 5);
      assert "~orig.jpeg"[5..] == ".jpeg";
    } else {
      EndsWithTail(h, "~orig.png", 5);
      assert "~orig.png"[5..] == ".png";
    }
  }

  lemma EndsWithTail(s: string, suffix: string, i: nat)
    requires EndsWithIgnoreCase(s, suffix) && i <= |suffix|
    ensures EndsWithIgnoreCase(s, suffix[i..])
  {
    var t := suffix[i..];
    forall k | 0 <= k < |t|
      ensures LowerAscii(s[|s| - |t| + k]) == t[k]
    {
      assert t[k] == suffix[i + k];
    }
  }

  lemma EndsWithLast(s: string, suffix: string)
    requires EndsWithIgnoreCase(s, suffix) && suffix != []
    ensures LowerAscii(s[|s| - 1]) == suffix[|suffix| - 1]
  {
  }

  /** `Array.prototype.find`: the index of the first href matching the tier. */
  function FindFirst(hrefs: seq<string>, tier: Tier): (r: Option<nat>)
    ensures r.Some? ==> r.value < |hrefs| && Matches(tier, hrefs[r.value])
                        && forall j :: 0 <= j < r.value ==> !Matches(tier, hrefs[j])
    ensures r.None? ==> forall j :: 0 <= j < |hrefs| ==> !Matches(tier, hrefs[j])
  {
    if hrefs == [] then None
    else if Matches(tier, hrefs[0]) then Some(0)
    else match FindFirst(hrefs[1..], tier)
      case Some(k) => Some(k + 1)
      case None => None
  }

  /** The preferred href of an asset listing. */
  function Resolve(hrefs: seq<string>): (r: string)
    ensures r == "" || r in hrefs
    ensures r == "" ==> hrefs == [] || hrefs[0] == ""
  {
    match FindFirst(hrefs, Original)
    case Some(k) => hrefs[k]
    case None =>
      match FindFirst(hrefs, Raster)
      case Some(k) => hrefs[k]
      case None => if |hrefs| > 0 then hrefs[0] else ""
  }

  /** How much the resolver prefers an href: 0 for `~orig` images, 1 for other JPEG/PNG, 2 for the rest. */
  function Rank(h: string): nat {
    if Matches(Original, h) then 0 else if Matches(Raster, h) then 1 else 2
  }

  /** Tier (a): the first `~orig` href wins whenever there is one. */
  lemma ResolveOriginal(hrefs: seq<string>, k: nat)
    requires k < |hrefs| && Matches(Original, hrefs[k])
    requires forall j :: 0 <= j < k ==> !Matches(Original, hrefs[j])
    ensures Resolve(hrefs) == hrefs[k]
  {
  }

  /** Tier (b): with no `~orig` href, the first JPEG/PNG href wins; `.tif` does not count here. */
  lemma ResolveRaster(hrefs: seq<string>, k: nat)
    requires forall j :: 0 <= j < |hrefs| ==> !Matches(Original, hrefs[j])
    requires k < |hrefs| && Matches(Raster, hrefs[k])
    requires forall j :: 0 <= j < k ==> !Matches(Raster, hrefs[j])
    ensures Resolve(hrefs) == hrefs[k]
  {
  }

  /** Tiers (c) and (d): with no image href at all, the first href, or "" for an empty listing. */
  lemma ResolveFallback(hrefs: seq<string>)
    requires forall j :: 0 <= j < |hrefs| ==> !Matches(Original, hrefs[j]) && !Matches(Raster, hrefs[j])
    ensures Resolve(hrefs) == if hrefs == [] then "" else hrefs[0]
  {
  }

  /**
   * The whole rule in one statement: the resolver returns the href of best
   * rank, and among those of best rank the one that comes first.
   */
  lemma ResolveIsBestRanked(hrefs: seq<string>)
    requires hrefs != []
    ensures exists k :: 0 <= k < |hrefs| && Resolve(hrefs) == hrefs[k]
              && forall j :: 0 <= j < |hrefs| ==>
                   Rank(hrefs[k]) < Rank(hrefs[j]) || (Rank(hrefs[k]) == Rank(hrefs[j]) && k <= j)
  {
    var k: nat;
    match FindFirst(hrefs, Original)
    case Some(i) =>
      k := i;
    case None =>
      match FindFirst(hrefs, Raster)
      case Some(i) =>
        k := i;
      case None =>
        k := 0;
    assert Resolve(hrefs) == hrefs[k];
    assert forall j :: 0 <= j < |hrefs| ==>
             Rank(hrefs[k]) < Rank(hrefs[j]) || (Rank(hrefs[k]) == Rank(hrefs[j]) && k <= j);
  }

  /** A `~orig.tif` href beats an earlier plain PNG. */
  lemma ResolveExampleOriginal()
    ensures Resolve(["a.png", "b~orig.tif", "c.gif"]) == "b~orig.tif"
  {
    var hs := ["a.png", "b~orig.tif", "c.gif"];
    assert !Matches(Original, hs[0]);
    assert Matches(Original, hs[1]);
    ResolveOriginal(hs, 1);
  }

  /** With no image href the first href is taken. */
  lemma ResolveExampleFallback()
    ensures Resolve(["a.gif", "b.docx"]) == "a.gif"
  {
    var gs := ["a.gif", "b.docx"];
    // every image extension ends in 'g'; neither name does
    assert ".jpg"[3] == 'g' && ".jpeg"[4] == 'g' && ".png"[3] == 'g';
    assert !Matches(Original, gs[0]) && !Matches(Raster, gs[0]);
    assert !Matches(Original, gs[1]) && !Matches(Raster, gs[1]);
    ResolveFallback(gs);
  }

  /** An empty listing resolves to "". */
  lemma ResolveExampleEmpty()
    ensures Resolve([]) == ""
  {
  }

  /** A plain `.TIF` is no JPEG/PNG: a later `.JPEG` wins, whatever the case of the extension. */
  lemma ResolveExampleTif()
    ensures Resolve(["x.TIF", "y.JPEG"]) == "y.JPEG"
  {
    var ts := ["x.TIF", "y.JPEG"];
    assert ".jpg"[3] == 'g' && ".jpeg"[4] == 'g' && ".png"[3] == 'g';
    assert !Matches(Original, ts[0]) && !Matches(Raster, ts[0]);
    assert !Matches(Original, ts[1]) && Matches(Raster, ts[1]);
    ResolveRaster(ts, 1);
  }
}
