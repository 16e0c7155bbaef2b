/** The product image URLs of the data app: file names from the catalog are
    turned into URLs under one base, catalog and swatch URLs are built from
    codes, a data URL stands in for a missing image, and a URL counts as
    usable when it has a web or data scheme. */
module ImageUrls {
  import opened Wrappers
  import Text

  const Https: string := "https://"

  /** `IMAGE_BASE_URL`, "https://unifirst.com/wp-content/uploads/2023/01". */
  const ImageBaseUrl: string := Https + "unifirst.com/wp-content/uploads/2023/01"

  /** The file names the catalog uses for "no image". */
  predicate IsSentinel(name: string) {
    name == "x" || name == "Blank" || name == "null"
  }

  predicate IsWebUrl(s: string) {
    Text.StartsWith(s, "http://") || Text.StartsWith(s, "https://")
  }

  /** `buildImageUrl(filename)`: `null` for a missing or empty name and for
      the sentinels, checked before trimming; a trimmed full URL as it is;
      and otherwise the trimmed name under the base. */
  function BuildImageUrl(filename: Option<string>): Option<string> {
    if filename.None? || filename.value == "" || IsSentinel(filename.value) then None
    else Some(Resolve(Text.Trim(filename.value)))
  }

  /** Where a trimmed, accepted name points: itself when it is a web URL,
      and the base followed by it otherwise. */
  function Resolve(clean: string): string {
    if IsWebUrl(clean) then clean else ImageBaseUrl + "/" + clean
  }

  /** `buildCatalogImageUrl(styleCode, colorCode)`. */
  function CatalogImageUrl(styleCode: string, colorCode: string): string {
    ImageBaseUrl + "/" + styleCode + "-" + colorCode + ".jpg"
  }

  /** `buildColorSwatchUrl(colorCode)`. */
  function ColorSwatchUrl(colorCode: string): string {
    ImageBaseUrl + "/Swatch-" + colorCode + ".jpg"
  }

  /** `getPlaceholderImageUrl()`: an inline grey SVG. */
  function PlaceholderImageUrl(): string {
    "data:" + PlaceholderSvg
  }

  const PlaceholderSvg: string := "image/svg+xml,%3Csvg xmlns=\"http://www.w3.org/2000/svg\" width=\"400\" height=\"400\"%3E%3Crect width=\"400\" height=\"400\" fill=\"%23f3f4f6\"/%3E%3Ctext x=\"50%25\" y=\"50%25\" dominant-baseline=\"middle\" text-anchor=\"middle\" font-family=\"sans-serif\" font-size=\"18\" fill=\"%239ca3af\"%3ENo Image Available%3C/text%3E%3C/svg%3E"

  /** `isValidImageUrl(url)`: a non-empty URL with an `http://`, `https://`
      or `data:` scheme. */
  predicate IsValidImageUrl(url: Option<string>) {
    url.Some? && url.value != ""
    && (Text.StartsWith(url.value, "http://") || Text.StartsWith(url.value, "https://")
        || Text.StartsWith(url.value, "data:"))
  }

  /** The name is rejected exactly when it is missing, empty or a sentinel. */
  lemma RejectedNames(filename: Option<string>)
    ensures BuildImageUrl(filename).None?
            <==> filename.None? || filename.value in ["", "x", "Blank", "null"]
  {
  }

  /** The sentinels are compared before trimming, so one with whitespace
      around it is accepted and put under the base. */
  lemma SpacedSentinel(sentinel: string, before: char, after: char)
    requires IsSentinel(sentinel) && Text.IsSpace(before) && Text.IsSpace(after)
    ensures BuildImageUrl(Some([before] + sentinel + [after])) == Some(ImageBaseUrl + "/" + sentinel)
  {
    var name := [before] + sentinel + [after];
    // no sentinel is two characters longer than another
    assert |name| == |sentinel| + 2 && |name| in {3, 6, 7};
    assert !IsSentinel(name);
    SentinelTrimmed(sentinel);
    TrimPadded(sentinel, before, after);
    BuildAccepted(name);
    assert |sentinel| < 7;
    ResolveOther(sentinel);
  }

  lemma SentinelTrimmed(sentinel: string)
    requires IsSentinel(sentinel)
    ensures sentinel != [] && !Text.IsSpace(sentinel[0]) && !Text.IsSpace(sentinel[|sentinel| - 1])
  {
    if sentinel == "x" {
      assert sentinel[0] == 'x';
    } else if sentinel == "Blank" {
      assert sentinel[0] == 'B' && sentinel[4] == 'k';
    } else {
      assert sentinel[0] == 'n' && sentinel[3] == 'l';
    }
  }

  /** Trimming one space from each side of a string that is already trimmed. */
  lemma TrimPadded(t: string, before: char, after: char)
    requires t != [] && !Text.IsSpace(t[0]) && !Text.IsSpace(t[|t| - 1])
    requires Text.IsSpace(before) && Text.IsSpace(after)
    ensures Text.Trim([before] + t + [after]) == t
  {
    var s := [before] + t + [after];
    assert s[1..] == t + [after];
    assert Text.TrimStart(t + [after]) == t + [after];
    assert Text.TrimStart(s) == t + [after];
    assert (t + [after])[..|t|] == t;
    assert Text.TrimEnd(t) == t;
  }

  /** A name that trims to a web URL comes back trimmed; any other accepted
      name, a blank one included, is put under the base. */
  lemma AcceptedNames(name: string)
    requires name != "" && !IsSentinel(name)
    ensures IsWebUrl(Text.Trim(name)) ==> BuildImageUrl(Some(name)) == Some(Text.Trim(name))
    ensures !IsWebUrl(Text.Trim(name)) ==> BuildImageUrl(Some(name)) == Some(ImageBaseUrl + "/" + Text.Trim(name))
    ensures Text.IsBlank(name) ==> BuildImageUrl(Some(name)) == Some(ImageBaseUrl + "/")
  {
    var clean := Text.Trim(name);
    BuildAccepted(name);
    if IsWebUrl(clean) {
      ResolveWeb(clean);
    } else {
      ResolveOther(clean);
    }
    Text.TrimEmptyIffBlank(name);
    if clean == "" {
      assert !Text.StartsWith("", "http://") && !Text.StartsWith("", "https://");
      assert ImageBaseUrl + "/" + "" == ImageBaseUrl + "/";
    }
  }

  /** The base is a web URL, so is everything under it. */
  lemma UnderBaseIsWeb(rest: string)
    ensures Text.StartsWith(ImageBaseUrl + rest, "https://")
    ensures IsWebUrl(ImageBaseUrl + rest)
  {
    assert ImageBaseUrl + rest == Https + ("unifirst.com/wp-content/uploads/2023/01" + rest);
    StartsWithConcat(Https, "unifirst.com/wp-content/uploads/2023/01" + rest);
  }

  lemma StartsWithConcat(p: string, s: string)
    ensures Text.StartsWith(p + s, p)
  {
    assert (p + s)[..|p|] == p;
  }

  /** A web URL is at least seven characters and starts with 'h'. */
  lemma WebUrlStart(u: string)
    requires IsWebUrl(u)
    ensures |u| >= 7 && u[0] == 'h'
  {
    if Text.StartsWith(u, "http://") {
      assert u[0] == u[..7][0];
    } else {
      assert u[0] == u[..8][0];
    }
  }

  /** Every URL built from a name is a valid image URL. */
  lemma BuiltUrlsValid(filename: Option<string>)
    ensures BuildImageUrl(filename).Some? ==> IsValidImageUrl(BuildImageUrl(filename))
  {
    if BuildImageUrl(filename).Some? {
      BuiltIsTrimmedWeb(filename.value);
      WebUrlValid(BuildImageUrl(filename).value);
    }
  }

  lemma WebUrlValid(u: string)
    requires IsWebUrl(u)
    ensures IsValidImageUrl(Some(u))
  {
    WebUrlStart(u);
  }

  /** The placeholder, the catalog URLs and the swatch URLs are valid. */
  lemma FixedUrlsValid(styleCode: string, colorCode: string)
    ensures IsValidImageUrl(Some(PlaceholderImageUrl()))
    ensures IsValidImageUrl(Some(CatalogImageUrl(styleCode, colorCode)))
    ensures IsValidImageUrl(Some(ColorSwatchUrl(colorCode)))
  {
    StartsWithConcat("data:", PlaceholderSvg);
    UnderBaseIsWeb("/" + styleCode + "-" + colorCode + ".jpg");
    assert CatalogImageUrl(styleCode, colorCode) == ImageBaseUrl + ("/" + styleCode + "-" + colorCode + ".jpg");
    UnderBaseIsWeb("/Swatch-" + colorCode + ".jpg");
    assert ColorSwatchUrl(colorCode) == ImageBaseUrl + ("/Swatch-" + colorCode + ".jpg");
  }

  /** A swatch URL is the catalog URL of the style "Swatch". */
  lemma SwatchIsCatalog(colorCode: string)
    ensures ColorSwatchUrl(colorCode) == CatalogImageUrl("Swatch", colorCode)
  {
    assert ImageBaseUrl + "/Swatch-" == ImageBaseUrl + "/" + "Swatch" + "-";
  }

  /** Building from the catalog's own file name `{style}-{color}.jpg` gives
      the catalog URL, for a style code that starts with neither whitespace
      nor 'h'. */
  lemma CatalogNameBuildsCatalogUrl(styleCode: string, colorCode: string)
    requires styleCode != [] && !Text.IsSpace(styleCode[0]) && styleCode[0] != 'h'
    ensures BuildImageUrl(Some(styleCode + "-" + colorCode + ".jpg")) == Some(CatalogImageUrl(styleCode, colorCode))
  {
    var name := styleCode + "-" + colorCode + ".jpg";
    assert name[0] == styleCode[0];
    assert name[|name| - 1] == 'g';
    assert |name| > 5;
    Text.TrimUnchanged(name);
    assert !IsWebUrl(name) by {
      assert "http://"[0] == 'h' && "https://"[0] == 'h';
    }
    assert ImageBaseUrl + "/" + name == CatalogImageUrl(styleCode, colorCode);
  }

  /** Building again from a built URL gives it back. */
  lemma BuildIdempotent(filename: Option<string>)
    ensures BuildImageUrl(filename).Some? ==> BuildImageUrl(BuildImageUrl(filename)) == BuildImageUrl(filename)
  {
    if BuildImageUrl(filename).Some? {
      BuiltIsTrimmedWeb(filename.value);
      WebUrlStart(BuildImageUrl(filename).value);
      KeepsWebUrl(BuildImageUrl(filename).value);
    }
  }

  /** A built URL is a web URL with no whitespace at either end. */
  lemma BuiltIsTrimmedWeb(name: string)
    requires name != "" && !IsSentinel(name)
    ensures IsWebUrl(BuildImageUrl(Some(name)).value)
    ensures Text.Trim(BuildImageUrl(Some(name)).value) == BuildImageUrl(Some(name)).value
  {
    BuildAccepted(name);
    Text.TrimShape(name);
    ResolvedIsTrimmedWeb(Text.Trim(name));
  }

  lemma ResolvedIsTrimmedWeb(clean: string)
    requires clean == [] || (!Text.IsSpace(clean[0]) && !Text.IsSpace(clean[|clean| - 1]))
    ensures IsWebUrl(Resolve(clean)) && Text.Trim(Resolve(clean)) == Resolve(clean)
  {
    if IsWebUrl(clean) {
      ResolveWeb(clean);
      Text.TrimUnchanged(clean);
    } else {
      ResolveOther(clean);
      UnderBaseIsWeb("/" + clean);
      assert Resolve(clean) == ImageBaseUrl + ("/" + clean);
      BaseStart();
      TrimmedEnds(ImageBaseUrl, "/" + clean);
    }
  }

  lemma BaseStart()
    ensures ImageBaseUrl != [] && !Text.IsSpace(ImageBaseUrl[0])
  {
    assert ImageBaseUrl[0] == Https[0];
  }

  /** Joining a string that starts with no whitespace to one that ends with
      none gives a string trim leaves alone. */
  lemma TrimmedEnds(a: string, b: string)
    requires a != [] && !Text.IsSpace(a[0])
    requires b != [] && !Text.IsSpace(b[|b| - 1])
    ensures Text.Trim(a + b) == a + b
  {
    var s := a + b;
    assert s[0] == a[0] && s[|s| - 1] == b[|b| - 1];
    Text.TrimUnchanged(s);
  }

  /** A trimmed web URL is returned as it is. */
  lemma KeepsWebUrl(u: string)
    requires IsWebUrl(u) && |u| >= 7 && Text.Trim(u) == u
    ensures BuildImageUrl(Some(u)) == Some(u)
  {
    BuildLong(u);
    ResolveWeb(u);
  }

  lemma BuildLong(u: string)
    requires |u| >= 7
    ensures BuildImageUrl(Some(u)) == Some(Resolve(Text.Trim(u)))
  {
    LongNotSentinel(u);
  }

  lemma BuildAccepted(name: string)
    requires name != "" && !IsSentinel(name)
    ensures BuildImageUrl(Some(name)) == Some(Resolve(Text.Trim(name)))
  {
  }

  lemma ResolveWeb(u: string)
    requires IsWebUrl(u)
    ensures Resolve(u) == u
  {
  }

  lemma ResolveOther(clean: string)
    requires !IsWebUrl(clean)
    ensures Resolve(clean) == ImageBaseUrl + "/" + clean
  {
  }

  lemma LongNotSentinel(u: string)
    requires |u| > 5
    ensures !IsSentinel(u)
  {
  }
}
