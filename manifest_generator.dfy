/**
 * `ManifestGenerator` (src/script/manifest-generator.js): builds a web app
 * manifest from the loaded images (standard icons picked by file name,
 * splash screens recognised by a pattern, an optional shortcut), merges
 * settings over it, and validates a manifest into errors and warnings.
 */
module ManifestGenerator {
  import opened Wrappers
  import opened Json
  import opened JsStrings
  import opened Seqs
  import opened Images

  /** The fields every manifest starts from. */
  const BaseManifest: Object := map[
    "name" := Str("Icon Forge Generator PWA"),
    "short_name" := Str("IconForge"),
    "description" := Str("Icon Forge Generator PWA - PWA приложение для создания иконок"),
    "start_url" := Str("./"),
    "display" := Str("standalone"),
    "background_color" := Str("#ffffff"),
    "theme_color" := Str("#007bff"),
    "orientation" := Str("any"),
    "scope" := Str("./"),
    "lang" := Str("ru"),
    "categories" := Arr([Str("productivity"), Str("utilities")])
  ]

  // ---------------------------------------------------------------------
  // Finding images by path
  // ---------------------------------------------------------------------

  /** The index at which `images.find(img => img.path.includes(sub))` stops. */
  function FindIndex(images: seq<LoadedImage>, sub: string): (r: Option<nat>)
    ensures r.Some? ==> r.value < |images| && Includes(images[r.value].path, sub)
    ensures r.Some? ==> forall j :: 0 <= j < r.value ==> !Includes(images[j].path, sub)
    ensures r.None? ==> forall j :: 0 <= j < |images| ==> !Includes(images[j].path, sub)
  {
    if |images| == 0 then None
    else if Includes(images[0].path, sub) then Some(0)
    else match FindIndex(images[1..], sub)
      case None => None
      case Some(k) => Some(k + 1)
  }

  /** `images.find(img => img.path.includes(sub))`. */
  function FindByPath(images: seq<LoadedImage>, sub: string): Option<LoadedImage>
  {
    match FindIndex(images, sub)
    case None => None
    case Some(k) => Some(images[k])
  }

  // ---------------------------------------------------------------------
  // The icons array
  // ---------------------------------------------------------------------

  /** The file name that identifies the standard icon of `size`: `icon-SxS.png`. */
  function IconFileName(size: nat): string
  {
    "icon-" + SizeLabel(size) + ".png"
  }

  /** The entry pushed for the standard icon of `size` found at `image`. */
  function StandardIcon(size: nat, image: LoadedImage): Icon
  {
    Icon(StripDotSlash(image.path), SizeLabel(size), "image/png", "any maskable")
  }

  /** An image whose path names the standard icon of `size` is present. */
  predicate HasIcon(images: seq<LoadedImage>, size: nat)
  {
    FindIndex(images, IconFileName(size)).Some?
  }

  /** The entry pushed for one standard size: none when no image's path names it. */
  function StandardEntry(images: seq<LoadedImage>): nat -> seq<Icon>
  {
    (size: nat) =>
      match FindByPath(images, IconFileName(size))
      case None => []
      case Some(image) => [StandardIcon(size, image)]
  }

  /** The entries the loop over the standard sizes pushes, for the sizes in `sizes`. */
  function StandardIcons(images: seq<LoadedImage>, sizes: seq<nat>): seq<Icon>
  {
    FlatMap(StandardEntry(images), sizes)
  }

  /** `HasIcon` as a test on sizes. */
  function HasIconTest(images: seq<LoadedImage>): nat -> bool
  {
    (s: nat) => HasIcon(images, s)
  }

  /** The sizes among `sizes` that have an image, in the order of `sizes`. */
  function FoundSizes(images: seq<LoadedImage>, sizes: seq<nat>): seq<nat>
  {
    Filter(HasIconTest(images), sizes)
  }

  /** The entry for a path the splash pattern matched with width `w` and height `h`. */
  function SplashIcon(image: LoadedImage, w: string, h: string): Icon
  {
    Icon(StripDotSlash(image.path), w + "x" + h, "image/png", "any")
  }

  /** The image's path contains `splash-`. */
  predicate IsSplashPath(image: LoadedImage)
  {
    Includes(image.path, SplashPrefix)
  }

  /** The images whose path contains `splash-`. */
  function SplashImages(images: seq<LoadedImage>): seq<LoadedImage>
  {
    Filter(IsSplashPath, images)
  }

  /** The entry pushed for one splash image: none when the pattern does not match its path. */
  function SplashEntry(image: LoadedImage): seq<Icon>
  {
    var sizeMatch := MatchSplash(image.path);
    if sizeMatch.Some? then [SplashIcon(image, sizeMatch.value.0, sizeMatch.value.1)] else []
  }

  /** Pushing the entry of one more image extends the splash entries by that image's. */
  lemma SplashIconsStep(standard: seq<Icon>, images: seq<LoadedImage>, j: nat)
    requires j < |images|
    ensures standard + SplashIcons(images[..j]) + SplashEntry(images[j]) == standard + SplashIcons(images[..j + 1])
  {
    FlatMapStep(SplashEntry, images, j);
    AppendAssoc(standard, SplashIcons(images[..j]), SplashEntry(images[j]));
  }

  /** The entry of one image, given the match of its path. */
  lemma SplashEntryOf(image: LoadedImage, sizeMatch: Option<(string, string)>)
    requires sizeMatch == MatchSplash(image.path)
    ensures sizeMatch.None? ==> SplashEntry(image) == []
    ensures sizeMatch.Some? ==> SplashEntry(image) == [SplashIcon(image, sizeMatch.value.0, sizeMatch.value.1)]
  {
  }

  /** The entries the loop over splash images pushes: one per path the pattern matches. */
  function SplashIcons(images: seq<LoadedImage>): seq<Icon>
  {
    FlatMap(SplashEntry, images)
  }

  /** What `generateIconsArray` returns: the standard entries, then the splash entries. */
  function IconsArray(images: seq<LoadedImage>): seq<Icon>
  {
    StandardIcons(images, IconSizes) + SplashIcons(SplashImages(images))
  }

  /** `generateIconsArray`: two loops pushing onto `icons`, the second one in PushSplashIcons. */
  method GenerateIconsArray(images: seq<LoadedImage>) returns (icons: seq<Icon>)
    ensures icons == IconsArray(images)
  {
    icons := [];
    var standardSizes := IconSizes;
    var i := 0;
    while i < |standardSizes|
      invariant 0 <= i <= |standardSizes|
      invariant icons == StandardIcons(images, standardSizes[..i])
    {
      var size := standardSizes[i];
      var image := FindByPath(images, IconFileName(size));
      FlatMapStep(StandardEntry(images), standardSizes, i);
      if image.Some? {
        icons := icons + [StandardIcon(size, image.value)];
      }
      i := i + 1;
    }
    assert standardSizes[..i] == standardSizes;
    icons := PushSplashIcons(icons, SplashImages(images));
  }

  /** The splash loop of `generateIconsArray`: one entry pushed per image whose path the pattern matches. */
  method PushSplashIcons(standard: seq<Icon>, splashImages: seq<LoadedImage>) returns (icons: seq<Icon>)
    ensures icons == standard + SplashIcons(splashImages)
  {
    icons := standard;
    var j := 0;
    while j < |splashImages|
      invariant 0 <= j <= |splashImages|
      invariant icons == standard + SplashIcons(splashImages[..j])
    {
      var image := splashImages[j];
      var sizeMatch := MatchSplash(image.path);
      SplashIconsStep(standard, splashImages, j);
      SplashEntryOf(image, sizeMatch);
      if sizeMatch.Some? {
        var width := sizeMatch.value.0;
        var height := sizeMatch.value.1;
        icons := icons + [SplashIcon(image, width, height)];
      }
      j := j + 1;
    }
    assert splashImages[..j] == splashImages;
  }

  /**
   * The standard entries are, entry by entry, those of the sizes that have an
   * image, in the order of the size list, each taken from the first image
   * whose path names it.
   */
  lemma StandardIconsFound(images: seq<LoadedImage>, sizes: seq<nat>)
    ensures |StandardIcons(images, sizes)| == |FoundSizes(images, sizes)|
    ensures forall k :: 0 <= k < |FoundSizes(images, sizes)| ==>
              var size := FoundSizes(images, sizes)[k];
              HasIcon(images, size) &&
              StandardIcons(images, sizes)[k]
                == StandardIcon(size, images[FindIndex(images, IconFileName(size)).value])
  {
    forall size: nat
      ensures |StandardEntry(images)(size)| == if HasIconTest(images)(size) then 1 else 0
    {
    }
    FlatMapSingletons(StandardEntry(images), HasIconTest(images), sizes);
    var found := FoundSizes(images, sizes);
    forall k | 0 <= k < |found|
      ensures HasIcon(images, found[k])
    {
      assert found[k] in found;
    }
  }

  /**
   * `generateIconsArray`'s standard part: exactly the sizes that have an image,
   * in the fixed order 16 … 512, so each size at most once, each entry with
   * label `SxS`, type `image/png`, purpose `any maskable` and the first
   * matching path without its first `./`.
   */
  lemma StandardIconsSpec(images: seq<LoadedImage>)
    ensures var found := FoundSizes(images, IconSizes);
            var icons := StandardIcons(images, IconSizes);
            && |icons| == |found| <= |IconSizes|
            && (forall s :: s in IconSizes ==> (s in found <==> HasIcon(images, s)))
            && (forall i, j :: 0 <= i < j < |found| ==> found[i] < found[j])
            && (forall k :: 0 <= k < |icons| ==>
                  HasIcon(images, found[k]) &&
                  icons[k] == StandardIcon(found[k], images[FindIndex(images, IconFileName(found[k])).value]))
            && (forall i, j :: 0 <= i < j < |icons| ==> icons[i].sizes != icons[j].sizes)
  {
    var found := FoundSizes(images, IconSizes);
    var icons := StandardIcons(images, IconSizes);
    StandardIconsFound(images, IconSizes);
    IconSizesIncreasing();
    FilterIncreasing(HasIconTest(images), IconSizes);
    forall s | s in IconSizes && HasIcon(images, s)
      ensures s in found
    {
      FilterKeeps(HasIconTest(images), IconSizes, s);
    }
    forall i, j | 0 <= i < j < |icons|
      ensures icons[i].sizes != icons[j].sizes
    {
      SizeLabelInjective(found[i], found[j]);
    }
  }

  /** Only the pattern decides: the `splash-` pre-filter drops no entry. */
  lemma SplashPrefilter(images: seq<LoadedImage>)
    ensures SplashIcons(SplashImages(images)) == SplashIcons(images)
  {
    forall image | !IsSplashPath(image)
      ensures SplashEntry(image) == []
    {
      MatchSplashIncludesPrefix(image.path);
    }
    FlatMapFilter(SplashEntry, IsSplashPath, images);
  }

  /**
   * A splash image gives an entry exactly when the pattern matches its path;
   * the entry has purpose `any` and `sizes` `WxH`, two runs of digits that
   * follow `splash-` in the path.
   */
  lemma SplashEntrySpec(image: LoadedImage)
    ensures MatchSplash(image.path).None? <==> SplashEntry(image) == []
    ensures MatchSplash(image.path).Some? ==>
              |SplashEntry(image)| == 1 &&
              var icon := SplashEntry(image)[0];
              && icon.src == StripDotSlash(image.path)
              && icon.mediaType == "image/png"
              && icon.purpose == "any"
              && exists w: string, h: string ::
                   && |w| >= 1 && |h| >= 1 && AllDigits(w) && AllDigits(h)
                   && icon.sizes == w + "x" + h
                   && Includes(image.path, SplashPrefix + w + "x" + h)
  {
    if MatchSplash(image.path).Some? {
      var (w, h) := MatchSplash(image.path).value;
      MatchSplashSpec(image.path);
      IncludesIff(image.path, SplashPrefix + w + "x" + h);
    }
  }

  /** Every splash entry is the entry of one of the images. */
  lemma SplashIconsFrom(images: seq<LoadedImage>, icon: Icon)
    requires icon in SplashIcons(images)
    ensures exists k :: 0 <= k < |images| && SplashEntry(images[k]) == [icon]
  {
    FlatMapFrom(SplashEntry, images, icon);
  }

  /**
   * Splash entries keep the input order: each image's entry sits between the
   * entries of the images before it and those of the images after it.
   */
  lemma SplashIconsAt(images: seq<LoadedImage>, k: nat)
    requires k < |images|
    ensures SplashIcons(images) == SplashIcons(images[..k]) + SplashEntry(images[k]) + SplashIcons(images[k + 1..])
  {
    assert images == images[..k + 1] + images[k + 1..];
    FlatMapAppend(SplashEntry, images[..k + 1], images[k + 1..]);
    FlatMapStep(SplashEntry, images, k);
  }

  // ---------------------------------------------------------------------
  // Shortcuts
  // ---------------------------------------------------------------------

  /** The file name the shortcut's icon is looked up by. */
  const Icon96: string := "icon-96x96.png"

  /** A shortcut's icon `{ src, sizes, type }`. */
  datatype ShortcutIcon = ShortcutIcon(src: string, sizes: string, mediaType: string)

  /** A manifest shortcut `{ name, short_name, description, url, icons }`. */
  datatype Shortcut = Shortcut(name: string, shortName: string, description: string, url: string,
                               icons: seq<ShortcutIcon>)

  /** `generateShortcuts`: one "new document" shortcut when a 96×96 icon is present, none otherwise. */
  function GenerateShortcuts(images: seq<LoadedImage>): (r: seq<Shortcut>)
    ensures r == [] <==> forall j :: 0 <= j < |images| ==> !Includes(images[j].path, Icon96)
    ensures r != [] ==> |r| == 1 && r[0].url == "/?action=new"
    ensures r != [] ==>
              r[0].icons == [ShortcutIcon(StripDotSlash(images[FindIndex(images, Icon96).value].path),
                                          "96x96", "image/png")]
  {
    match FindByPath(images, Icon96)
    case None => []
    case Some(icon96) =>
      [Shortcut("Новый документ", "Новый", "Создать новый документ", "/?action=new",
                [ShortcutIcon(StripDotSlash(icon96.path), "96x96", "image/png")])]
  }

  /** The shortcut is there exactly when the standard 96×96 icon is. */
  lemma ShortcutIffIcon96(images: seq<LoadedImage>)
    ensures GenerateShortcuts(images) != [] <==> 96 in FoundSizes(images, IconSizes)
  {
    assert NatToString(96) == "96" by {
      assert NatToString(9) == "9";
    }
    assert IconFileName(96) == Icon96;
    if HasIcon(images, 96) {
      FilterKeeps(HasIconTest(images), IconSizes, 96);
    }
  }

  function ShortcutIconValue(icon: ShortcutIcon): Value
  {
    Obj(map["src" := Str(icon.src), "sizes" := Str(icon.sizes), "type" := Str(icon.mediaType)])
  }

  function ShortcutValue(shortcut: Shortcut): Value
  {
    Obj(map["name" := Str(shortcut.name), "short_name" := Str(shortcut.shortName),
            "description" := Str(shortcut.description), "url" := Str(shortcut.url),
            "icons" := Arr(Map(ShortcutIconValue, shortcut.icons))])
  }

  // ---------------------------------------------------------------------
  // Whole manifests
  // ---------------------------------------------------------------------

  /** The generated fields are not among the base fields. */
  lemma BaseFieldsExclude()
    ensures "icons" !in BaseManifest && "shortcuts" !in BaseManifest
  {
  }

  /** The base fields with `icons` and `shortcuts` added. */
  function WithGenerated(icons: seq<Icon>, shortcuts: seq<Shortcut>): (m: Object)
    ensures m.Keys == BaseManifest.Keys + {"icons", "shortcuts"}
    ensures forall k :: k in BaseManifest ==> m[k] == BaseManifest[k]
    ensures m["icons"] == Arr(Map(IconValue, icons))
    ensures m["shortcuts"] == Arr(Map(ShortcutValue, shortcuts))
  {
    BaseFieldsExclude();
    BaseManifest["icons" := Arr(Map(IconValue, icons))]["shortcuts" := Arr(Map(ShortcutValue, shortcuts))]
  }

  /** `generateManifest`: the base fields, with the icons and shortcuts added. */
  function GenerateManifest(images: seq<LoadedImage>): (m: Object)
    ensures m.Keys == BaseManifest.Keys + {"icons", "shortcuts"}
    ensures forall k :: k in BaseManifest ==> m[k] == BaseManifest[k]
    ensures m["icons"] == Arr(Map(IconValue, IconsArray(images)))
    ensures m["shortcuts"] == Arr(Map(ShortcutValue, GenerateShortcuts(images)))
  {
    WithGenerated(IconsArray(images), GenerateShortcuts(images))
  }

  /** `updateManifest`: the base fields with every setting overriding. */
  function UpdateManifest(custom: Object): (m: Object)
    ensures m.Keys == BaseManifest.Keys + custom.Keys
    ensures forall k :: k in custom ==> m[k] == custom[k]
    ensures forall k :: k in BaseManifest && k !in custom ==> m[k] == BaseManifest[k]
  {
    BaseManifest + custom
  }

  /**
   * The object `generateManifestJSON` serialises: the generated manifest with
   * the settings spread over it, so a setting for `icons` replaces the
   * generated icons.
   */
  function ManifestWithSettings(images: seq<LoadedImage>, custom: Object): (m: Object)
    ensures m.Keys == BaseManifest.Keys + {"icons", "shortcuts"} + custom.Keys
    ensures forall k :: k in custom ==> m[k] == custom[k]
    ensures "icons" !in custom ==> m["icons"] == Arr(Map(IconValue, IconsArray(images)))
    ensures "shortcuts" !in custom ==> m["shortcuts"] == Arr(Map(ShortcutValue, GenerateShortcuts(images)))
  {
    GenerateManifest(images) + custom
  }

  /** Apart from the generated fields, the serialised manifest is the updated manifest. */
  lemma SettingsAgreeWithUpdate(images: seq<LoadedImage>, custom: Object, key: string)
    requires key in UpdateManifest(custom) && key != "icons" && key != "shortcuts"
    ensures key in ManifestWithSettings(images, custom)
    ensures ManifestWithSettings(images, custom)[key] == UpdateManifest(custom)[key]
  {
  }

  // ---------------------------------------------------------------------
  // Validation
  // ---------------------------------------------------------------------

  /** The TypeError `validateManifest` throws on a malformed `icons` value. */
  datatype ValidationError =
    | IconsNotArray  // `icons.some` is not a function
    | IconIsNull     // reading `sizes` of a null entry

  /** `{ errors, warnings, isValid }`. */
  datatype Validation = Validation(errors: seq<string>, warnings: seq<string>, isValid: bool)

  const RequiredFields: seq<string> := ["name", "start_url", "display"]
  const RecommendedSizes: seq<string> := ["192x192", "512x512"]
  const NoIconsWarning: string := "No icons specified"

  function MissingFieldError(field: string): string
  {
    "Missing required field: " + field
  }

  function MissingSizeWarning(size: string): string
  {
    "Missing recommended icon size: " + size
  }

  /** The errors the loop over `fields` pushes: one per falsy field. */
  function RequiredErrors(m: Object, fields: seq<string>): seq<string>
  {
    if |fields| == 0 then []
    else
      var field := fields[|fields| - 1];
      RequiredErrors(m, fields[..|fields| - 1]) +
      (if PropertyTruthy(m, field) then [] else [MissingFieldError(field)])
  }

  /** `icons.length === 0` for a truthy `icons` value; a missing `length` is `undefined`. */
  predicate LengthIsZero(v: Value)
  {
    match v
    case Arr(items) => |items| == 0
    case Str(s) => |s| == 0
    case Obj(fields) => "length" in fields && fields["length"] == Num(0)
    case _ => false
  }

  /** `icon.sizes === size` for a non-null entry. */
  predicate SizesIs(icon: Value, size: string)
  {
    icon.Obj? && "sizes" in icon.fields && icon.fields["sizes"] == Str(size)
  }

  /** No entry of `icons` has `sizes` equal to `size`. */
  predicate NoIconHasSize(icons: seq<Value>, size: string)
  {
    forall k :: 0 <= k < |icons| ==> !SizesIs(icons[k], size)
  }

  /** `icons.some(icon => icon.sizes === size)`, which throws at a null entry reached before a match. */
  function SomeHasSize(icons: seq<Value>, size: string): (r: Result<bool, ValidationError>)
    ensures (forall k :: 0 <= k < |icons| ==> icons[k] != Null) ==> r == Success(!NoIconHasSize(icons, size))
    ensures r.Failure? ==> r.error == IconIsNull && exists k :: 0 <= k < |icons| && icons[k] == Null
  {
    if |icons| == 0 then Success(false)
    else if icons[0] == Null then Failure(IconIsNull)
    else if SizesIs(icons[0], size) then Success(true)
    else
      var r := SomeHasSize(icons[1..], size);
      assert forall k :: 1 <= k < |icons| ==> icons[1..][k - 1] == icons[k];
      r
  }

  /** The warnings the loop over `sizes` pushes, or the error it throws. */
  function SizeWarnings(icons: seq<Value>, sizes: seq<string>): Result<seq<string>, ValidationError>
  {
    if |sizes| == 0 then Success([])
    else
      var size := sizes[|sizes| - 1];
      match SizeWarnings(icons, sizes[..|sizes| - 1])
      case Failure(e) => Failure(e)
      case Success(warnings) =>
        match SomeHasSize(icons, size)
        case Failure(e) => Failure(e)
        case Success(hasSize) => Success(warnings + (if hasSize then [] else [MissingSizeWarning(size)]))
  }

  /** The icon warnings of `validateManifest`, or the error it throws. */
  function IconWarnings(m: Object): Result<seq<string>, ValidationError>
  {
    if !PropertyTruthy(m, "icons") || LengthIsZero(m["icons"]) then Success([NoIconsWarning])
    else if m["icons"].Arr? then SizeWarnings(m["icons"].items, RecommendedSizes)
    else Failure(IconsNotArray)
  }

  /** What `validateManifest` returns, or the error it throws. */
  function Validate(m: Object): (r: Result<Validation, ValidationError>)
    ensures r.Success? ==> (r.value.isValid <==> r.value.errors == [])
    ensures r.Failure? <==> IconWarnings(m).Failure?
  {
    var errors := RequiredErrors(m, RequiredFields);
    match IconWarnings(m)
    case Failure(e) => Failure(e)
    case Success(warnings) => Success(Validation(errors, warnings, |errors| == 0))
  }

  /** `validateManifest`: a loop over the required fields, then one over the recommended sizes. */
  method ValidateManifest(m: Object) returns (r: Result<Validation, ValidationError>)
    ensures r == Validate(m)
  {
    var errors: seq<string> := [];
    var i := 0;
    while i < |RequiredFields|
      invariant 0 <= i <= |RequiredFields|
      invariant errors == RequiredErrors(m, RequiredFields[..i])
    {
      var field := RequiredFields[i];
      if !PropertyTruthy(m, field) {
        errors := errors + [MissingFieldError(field)];
      }
      assert RequiredFields[..i + 1][..i] == RequiredFields[..i];
      i := i + 1;
    }
    assert RequiredFields[..i] == RequiredFields;
    var warnings: seq<string> := [];
    if !PropertyTruthy(m, "icons") || LengthIsZero(m["icons"]) {
      warnings := [NoIconsWarning];
    } else if !m["icons"].Arr? {
      return Failure(IconsNotArray);
    } else {
      var icons := m["icons"].items;
      var recommendedSizes := RecommendedSizes;
      var j := 0;
      while j < |recommendedSizes|
        invariant 0 <= j <= |recommendedSizes|
        invariant SizeWarnings(icons, recommendedSizes[..j]) == Success(warnings)
      {
        var size := recommendedSizes[j];
        var hasSize := SomeHasSize(icons, size);
        SizeWarningsStep(icons, recommendedSizes, j);
        if hasSize.Failure? {
          SizeWarningsFailed(icons, recommendedSizes, j + 1);
          return Failure(hasSize.error);
        }
        if !hasSize.value {
          warnings := warnings + [MissingSizeWarning(size)];
        }
        j := j + 1;
      }
      assert recommendedSizes[..j] == recommendedSizes;
    }
    r := Success(Validation(errors, warnings, |errors| == 0));
  }

  /** The field is missing or falsy, as a test on field names. */
  function FieldMissing(m: Object): string -> bool
  {
    (field: string) => !PropertyTruthy(m, field)
  }

  /** The errors are one message per falsy required field, in the order of `fields`. */
  lemma {:induction false} RequiredErrorsSpec(m: Object, fields: seq<string>)
    ensures RequiredErrors(m, fields) == Map(MissingFieldError, Filter(FieldMissing(m), fields))
  {
    if |fields| > 0 {
      var prefix, field := fields[..|fields| - 1], fields[|fields| - 1];
      RequiredErrorsSpec(m, prefix);
      FilterStep(FieldMissing(m), fields);
      MapAppend(MissingFieldError, Filter(FieldMissing(m), prefix),
                if PropertyTruthy(m, field) then [] else [field]);
    }
  }

  /**
   * The errors are one message per falsy field among name, start_url and
   * display, in that order, whatever the icons; the manifest is valid exactly
   * when all three are truthy, so warnings never make it invalid.
   */
  lemma ValidateErrors(m: Object)
    ensures Validate(m).Success? ==>
              && Validate(m).value.errors == Map(MissingFieldError, Filter(FieldMissing(m), RequiredFields))
              && (Validate(m).value.isValid <==> forall f :: f in RequiredFields ==> PropertyTruthy(m, f))
  {
    RequiredErrorsSpec(m, RequiredFields);
    forall f | f in RequiredFields && !PropertyTruthy(m, f)
      ensures f in Filter(FieldMissing(m), RequiredFields)
    {
      FilterKeeps(FieldMissing(m), RequiredFields, f);
    }
  }

  /** `NoIconHasSize` as a test on sizes. */
  function SizeMissing(icons: seq<Value>): string -> bool
  {
    (size: string) => NoIconHasSize(icons, size)
  }

  /** The warnings an icons array without null entries gets: one per size in `sizes` that no entry has. */
  lemma {:induction false} SizeWarningsSpec(icons: seq<Value>, sizes: seq<string>)
    requires forall k :: 0 <= k < |icons| ==> icons[k] != Null
    ensures SizeWarnings(icons, sizes) == Success(Map(MissingSizeWarning, Filter(SizeMissing(icons), sizes)))
  {
    if |sizes| > 0 {
      var prefix, size := sizes[..|sizes| - 1], sizes[|sizes| - 1];
      SizeWarningsSpec(icons, prefix);
      FilterStep(SizeMissing(icons), sizes);
      var kept := Filter(SizeMissing(icons), prefix);
      var missing := NoIconHasSize(icons, size);
      assert SomeHasSize(icons, size) == Success(!missing);
      assert SizeWarnings(icons, sizes)
          == Success(Map(MissingSizeWarning, kept) + (if missing then [MissingSizeWarning(size)] else []));
      assert SizeMissing(icons)(size) == missing;
      MapAppend(MissingSizeWarning, kept, if missing then [size] else []);
      assert Map(MissingSizeWarning, [size]) == [MissingSizeWarning(size)];
    }
  }

  /** One more size adds its warning, if any, or makes the loop throw. */
  lemma SizeWarningsStep(icons: seq<Value>, sizes: seq<string>, j: nat)
    requires j < |sizes| && SizeWarnings(icons, sizes[..j]).Success?
    ensures SomeHasSize(icons, sizes[j]).Failure? ==>
              SizeWarnings(icons, sizes[..j + 1]) == Failure(SomeHasSize(icons, sizes[j]).error)
    ensures SomeHasSize(icons, sizes[j]) == Success(true) ==>
              SizeWarnings(icons, sizes[..j + 1]) == SizeWarnings(icons, sizes[..j])
    ensures SomeHasSize(icons, sizes[j]) == Success(false) ==>
              SizeWarnings(icons, sizes[..j + 1])
              == Success(SizeWarnings(icons, sizes[..j]).value + [MissingSizeWarning(sizes[j])])
  {
    assert sizes[..j + 1][..j] == sizes[..j];
    var warnings := SizeWarnings(icons, sizes[..j]).value;
    assert warnings + [] == warnings;
  }

  /** Once the loop over the sizes has thrown, it has thrown for the whole list. */
  lemma {:induction false} SizeWarningsFailed(icons: seq<Value>, sizes: seq<string>, n: nat)
    requires n <= |sizes| && SizeWarnings(icons, sizes[..n]).Failure?
    ensures SizeWarnings(icons, sizes) == SizeWarnings(icons, sizes[..n])
  {
    if n < |sizes| {
      var prefix := sizes[..|sizes| - 1];
      assert prefix[..n] == sizes[..n];
      SizeWarningsFailed(icons, prefix, n);
    } else {
      assert sizes[..n] == sizes;
    }
  }

  /**
   * `validateManifest` on icons: missing, falsy or empty icons give exactly
   * "No icons specified"; a non-empty array without null entries gives one
   * warning per recommended size that no entry has, 192x192 first; a truthy
   * non-array without a zero `length` throws.
   */
  lemma IconWarningsSpec(m: Object)
    ensures !PropertyTruthy(m, "icons") ==> IconWarnings(m) == Success([NoIconsWarning])
    ensures "icons" in m && m["icons"] == Arr([]) ==> IconWarnings(m) == Success([NoIconsWarning])
    ensures "icons" in m && m["icons"].Arr? && m["icons"].items != []
            && (forall k :: 0 <= k < |m["icons"].items| ==> m["icons"].items[k] != Null) ==>
              IconWarnings(m)
              == Success(Map(MissingSizeWarning, Filter(SizeMissing(m["icons"].items), RecommendedSizes)))
    ensures PropertyTruthy(m, "icons") && !LengthIsZero(m["icons"]) && !m["icons"].Arr? ==>
              IconWarnings(m) == Failure(IconsNotArray)
  {
    if "icons" in m && m["icons"].Arr? && m["icons"].items != []
       && (forall k :: 0 <= k < |m["icons"].items| ==> m["icons"].items[k] != Null) {
      SizeWarningsSpec(m["icons"].items, RecommendedSizes);
    }
  }

  /** Without a falsy field there is no error. */
  lemma {:induction false} NoMissingField(m: Object, fields: seq<string>)
    requires forall k :: 0 <= k < |fields| ==> PropertyTruthy(m, fields[k])
    ensures RequiredErrors(m, fields) == []
  {
    if |fields| > 0 {
      NoMissingField(m, fields[..|fields| - 1]);
    }
  }

  /** The base fields hold a truthy name, start_url and display. */
  lemma BaseRequiredTruthy()
    ensures forall k :: 0 <= k < |RequiredFields| ==> PropertyTruthy(BaseManifest, RequiredFields[k])
  {
    var base := BaseManifest;
    assert base["name"] == Str("Icon Forge Generator PWA");
    assert base["start_url"] == Str("./");
    assert base["display"] == Str("standalone");
  }

  /** A manifest that keeps the base fields has every required field. */
  lemma BaseFieldsRequired(m: Object)
    requires forall k :: k in BaseManifest ==> k in m && m[k] == BaseManifest[k]
    ensures RequiredErrors(m, RequiredFields) == []
  {
    BaseRequiredTruthy();
    NoMissingField(m, RequiredFields);
  }

  /** The validation of a manifest with its required fields and an icons array without null entries. */
  lemma ValidateIconsArray(m: Object, items: seq<Value>)
    requires RequiredErrors(m, RequiredFields) == []
    requires "icons" in m && m["icons"] == Arr(items)
    requires forall k :: 0 <= k < |items| ==> items[k] != Null
    ensures Validate(m) == Success(Validation([], if items == [] then [NoIconsWarning]
                                                  else Map(MissingSizeWarning, Filter(SizeMissing(items), RecommendedSizes)),
                                              true))
  {
    IconWarningsSpec(m);
  }

  /**
   * A generated manifest always validates: name, start_url and display come
   * from the base fields, so there are no errors; the warnings are "No icons
   * specified" when no icon was found, otherwise one per recommended size the
   * generated icons lack.
   */
  lemma GeneratedManifestValidates(images: seq<LoadedImage>)
    ensures Validate(GenerateManifest(images)).Success?
    ensures Validate(GenerateManifest(images)).value.errors == []
    ensures Validate(GenerateManifest(images)).value.isValid
    ensures IconsArray(images) == [] ==> Validate(GenerateManifest(images)).value.warnings == [NoIconsWarning]
    ensures IconsArray(images) != [] ==>
              Validate(GenerateManifest(images)).value.warnings
              == Map(MissingSizeWarning, Filter(SizeMissing(Map(IconValue, IconsArray(images))), RecommendedSizes))
  {
    var m := GenerateManifest(images);
    var items := Map(IconValue, IconsArray(images));
    BaseFieldsRequired(m);
    ValidateIconsArray(m, items);
  }

  /** A standard size that has an image gets an entry labelled with it. */
  lemma StandardSizeListed(images: seq<LoadedImage>, size: nat)
    requires size in IconSizes && HasIcon(images, size)
    ensures exists k :: 0 <= k < |IconsArray(images)| && IconsArray(images)[k].sizes == SizeLabel(size)
  {
    StandardIconsSpec(images);
    var found := FoundSizes(images, IconSizes);
    var standard := StandardIcons(images, IconSizes);
    var k :| 0 <= k < |found| && found[k] == size;
    assert IconsArray(images)[k] == standard[k];
  }

  /** An icons array with a 192x192 and a 512x512 entry gets no size warning. */
  lemma NoSizeWarnings(icons: seq<Icon>)
    requires exists k :: 0 <= k < |icons| && icons[k].sizes == "192x192"
    requires exists k :: 0 <= k < |icons| && icons[k].sizes == "512x512"
    ensures Filter(SizeMissing(Map(IconValue, icons)), RecommendedSizes) == []
  {
    var items := Map(IconValue, icons);
    var a :| 0 <= a < |icons| && icons[a].sizes == "192x192";
    var b :| 0 <= b < |icons| && icons[b].sizes == "512x512";
    assert SizesIs(items[a], "192x192") && SizesIs(items[b], "512x512");
    assert !SizeMissing(items)("192x192") && !SizeMissing(items)("512x512");
  }

  /** The labels of the standard sizes 192 and 512 are the recommended sizes. */
  lemma RecommendedLabels()
    ensures SizeLabel(192) == "192x192" && SizeLabel(512) == "512x512"
  {
    assert NatToString(192) == "192" by {
      assert NatToString(19) == "19" by {
        assert NatToString(1) == "1";
      }
    }
    assert NatToString(512) == "512" by {
      assert NatToString(51) == "51" by {
        assert NatToString(5) == "5";
      }
    }
  }

  /** When the 192x192 and 512x512 icons were found, the generated manifest validates without any warning. */
  lemma RecommendedIconsValidate(images: seq<LoadedImage>)
    requires HasIcon(images, 192) && HasIcon(images, 512)
    ensures Validate(GenerateManifest(images)) == Success(Validation([], [], true))
  {
    RecommendedLabels();
    StandardSizeListed(images, 192);
    StandardSizeListed(images, 512);
    NoSizeWarnings(IconsArray(images));
    GeneratedManifestValidates(images);
  }
}
