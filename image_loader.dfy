/**
 * `ImageLoader` (src/script/image-loader.js): a path-keyed cache of loaded
 * image elements, the loading of the standard icons, the favicon and the SVG
 * icon into the list of loaded images, and the queries over that list.
 *
 * The browser stays abstract. What it answers for a path is a Probe: whether
 * the existence check (an `Image` whose `onload` fires) succeeds, and what the
 * loading `Image` gives, an element or an error.
 */
module ImageLoading {
  import opened Wrappers
  import opened JsStrings
  import opened Seqs
  import opened Images
  import ManifestGenerator

  /** The browser's answers for one path: `checkImageExists`, then the load done by `loadImage`. */
  datatype Probe = Probe(found: bool, load: Option<Element>)

  /** One call `loadImageSafely(path, identifier)`. */
  datatype Request = Request(path: string, identifier: Identifier)

  /** The outcome of one promise as `Promise.allSettled` reports it. */
  datatype Settled = Fulfilled(value: Option<LoadedImage>) | Rejected(reason: string)

  const ImageDir: string := "./src/img/"
  const FaviconPath: string := "./src/img/favicon.ico"
  const SvgPath: string := "./src/img/icon-forge.svg"

  /** `./src/img/icon-${size}x${size}.png`. */
  function IconPath(size: nat): (path: string)
    ensures |path| == 19 + |SizeLabel(size)|
    ensures path[..10] == ImageDir && path[10] == 'i' && IsDigit(path[15])
    ensures path[15..|path| - 4] == SizeLabel(size)
    ensures EndsWith(path, ".png")
  {
    ImageDir + "icon-" + SizeLabel(size) + ".png"
  }

  /** The request made for one standard size. */
  function IconRequest(size: nat): Request
  {
    Request(IconPath(size), Size(size))
  }

  /** The requests of `loadAllIcons`, in the order their promises are pushed. */
  function Requests(): seq<Request>
  {
    Map(IconRequest, IconSizes) + [Request(FaviconPath, Label("favicon")), Request(SvgPath, Label("svg"))]
  }

  /** No two requests share a path. */
  predicate PathsDistinct(requests: seq<Request>)
  {
    forall i, j :: 0 <= i < j < |requests| ==> requests[i].path != requests[j].path
  }

  /** The requests are the twelve standard sizes in their order, then the favicon, then the SVG icon. */
  lemma RequestsOrder()
    ensures |Requests()| == 14
    ensures forall k :: 0 <= k < 12 ==> Requests()[k] == Request(IconPath(IconSizes[k]), Size(IconSizes[k]))
    ensures Requests()[12] == Request(FaviconPath, Label("favicon"))
    ensures Requests()[13] == Request(SvgPath, Label("svg"))
  {
  }

  /** A request for a size asks for that size's icon path; the others are the favicon and the SVG icon. */
  lemma RequestShape(request: Request)
    requires request in Requests()
    ensures request.identifier.Size? ==> request.identifier.n in IconSizes && request.path == IconPath(request.identifier.n)
    ensures request.identifier.Label? ==> request.path in {FaviconPath, SvgPath}
  {
    RequestsOrder();
    var k :| 0 <= k < 14 && Requests()[k] == request;
    if k < 12 {
      assert IconSizes[k] in IconSizes;
    }
  }

  /** All fourteen request paths differ. */
  lemma RequestPathsDistinct()
    ensures PathsDistinct(Requests())
  {
    RequestsOrder();
    var requests := Requests();
    var sizes := IconSizes;
    IconSizesIncreasing();
    assert FaviconPath[10] == 'f' && SvgPath[15] == 'f';
    forall i, j | 0 <= i < j < |requests|
      ensures requests[i].path != requests[j].path
    {
      if j < 12 {
        var a, b := IconPath(sizes[i]), IconPath(sizes[j]);
        if a == b {
          assert a[15..|a| - 4] == b[15..|b| - 4];
          SizeLabelInjective(sizes[i], sizes[j]);
        }
      } else if i < 12 {
        var a := IconPath(sizes[i]);
        assert a[10] == 'i' && IsDigit(a[15]);
      }
    }
  }

  /** What `loadImage(path)` resolves to: the cached element, else what the browser loads. */
  function LoadResult(cache: map<string, Element>, path: string, load: Option<Element>): (r: Result<Element, string>)
    ensures path in cache ==> r == Success(cache[path])
    ensures path !in cache && load.Some? ==> r == Success(load.value)
    ensures r.Failure? <==> path !in cache && load.None?
    ensures r.Failure? ==> r.error == "Failed to load image: " + path
  {
    if path in cache then Success(cache[path])
    else match load
      case Some(element) => Success(element)
      case None => Failure("Failed to load image: " + path)
  }

  /** The cache after `loadImage(path)`: the element is stored on a fresh successful load only. */
  function CacheAfterLoad(cache: map<string, Element>, path: string, load: Option<Element>): (c: map<string, Element>)
    ensures forall p :: p in cache ==> p in c && c[p] == cache[p]
    ensures c.Keys == if path !in cache && load.Some? then cache.Keys + {path} else cache.Keys
    ensures path !in cache && load.Some? ==> c[path] == load.value
    ensures path in c ==> c[path] == LoadResult(cache, path, load).value
  {
    if path !in cache && load.Some? then cache[path := load.value] else cache
  }

  /** The record `loadImageSafely` builds: `size` is the identifier when that is a number, null otherwise. */
  function Record(path: string, identifier: Identifier, element: Element): (r: LoadedImage)
    ensures r.path == path && r.identifier == identifier
    ensures r.size.Some? <==> identifier.Size?
    ensures identifier.Size? ==> r.size.value == identifier.n
    ensures r.data == element && r.element == element
  {
    LoadedImage(path, identifier, if identifier.Size? then Some(identifier.n) else None, element, element)
  }

  /** What `loadImageSafely(path, identifier)` resolves to; null is None. */
  function SafeResult(cache: map<string, Element>, path: string, identifier: Identifier, probe: Probe): (r: Option<LoadedImage>)
    ensures r.Some? <==> probe.found && (path in cache || probe.load.Some?)
    ensures r.Some? ==> r.value == Record(path, identifier, LoadResult(cache, path, probe.load).value)
  {
    if !probe.found then None
    else match LoadResult(cache, path, probe.load)
      case Success(element) => Some(Record(path, identifier, element))
      case Failure(_) => None
  }

  /** The cache after `loadImageSafely(path, …)`: nothing is loaded for a path that is not found. */
  function SafeCache(cache: map<string, Element>, path: string, probe: Probe): map<string, Element>
  {
    if probe.found then CacheAfterLoad(cache, path, probe.load) else cache
  }

  /** The cache after the requests have run one after the other. */
  function RunCache(cache: map<string, Element>, requests: seq<Request>, browser: string -> Probe): map<string, Element>
  {
    if |requests| == 0 then cache
    else
      var last := requests[|requests| - 1];
      SafeCache(RunCache(cache, requests[..|requests| - 1], browser), last.path, browser(last.path))
  }

  /** The settled results of the requests run one after the other, each against the cache the earlier ones left. */
  function RunResults(cache: map<string, Element>, requests: seq<Request>, browser: string -> Probe): (r: seq<Settled>)
    ensures |r| == |requests|
  {
    if |requests| == 0 then []
    else
      var prefix, last := requests[..|requests| - 1], requests[|requests| - 1];
      RunResults(cache, prefix, browser)
        + [Fulfilled(SafeResult(RunCache(cache, prefix, browser), last.path, last.identifier, browser(last.path)))]
  }

  /** One more request appends its result and updates the cache. */
  lemma RunStep(cache: map<string, Element>, requests: seq<Request>, browser: string -> Probe, i: nat)
    requires i < |requests|
    ensures RunResults(cache, requests[..i + 1], browser)
              == RunResults(cache, requests[..i], browser)
                 + [Fulfilled(SafeResult(RunCache(cache, requests[..i], browser), requests[i].path,
                                         requests[i].identifier, browser(requests[i].path)))]
    ensures RunCache(cache, requests[..i + 1], browser)
              == SafeCache(RunCache(cache, requests[..i], browser), requests[i].path, browser(requests[i].path))
  {
    assert requests[..i + 1][..i] == requests[..i];
  }

  /** A settled result `loadAllIcons` keeps: fulfilled with a non-null value. */
  predicate IsKept(result: Settled)
  {
    result.Fulfilled? && result.value.Some?
  }

  /** The value a settled result contributes to `loadedImages`. */
  function KeptValue(result: Settled): seq<LoadedImage>
  {
    if IsKept(result) then [result.value.value] else []
  }

  /** `results.filter(r => r.status === 'fulfilled' && r.value).map(r => r.value)`. */
  function Collect(results: seq<Settled>): seq<LoadedImage>
  {
    FlatMap(KeptValue, results)
  }

  /** The collected images are the values of the kept results, one each, in order. */
  lemma CollectSpec(results: seq<Settled>)
    ensures |Collect(results)| == |Filter(IsKept, results)| <= |results|
    ensures forall k :: 0 <= k < |Collect(results)| ==> Collect(results)[k] == Filter(IsKept, results)[k].value.value
  {
    FlatMapSingletons(KeptValue, IsKept, results);
  }

  /** Running requests never removes or changes a cached element. */
  lemma {:induction false} RunKeepsCache(cache: map<string, Element>, requests: seq<Request>, browser: string -> Probe)
    ensures forall p :: p in cache ==> p in RunCache(cache, requests, browser)
                                       && RunCache(cache, requests, browser)[p] == cache[p]
  {
    if |requests| > 0 {
      RunKeepsCache(cache, requests[..|requests| - 1], browser);
    }
  }

  /** Requests for other paths leave the cache entry of `path` as it was. */
  lemma {:induction false} RunUntouched(cache: map<string, Element>, requests: seq<Request>, browser: string -> Probe, path: string)
    requires forall k :: 0 <= k < |requests| ==> requests[k].path != path
    ensures path in RunCache(cache, requests, browser) <==> path in cache
    ensures path in cache ==> RunCache(cache, requests, browser)[path] == cache[path]
  {
    if |requests| > 0 {
      var prefix := requests[..|requests| - 1];
      assert forall k :: 0 <= k < |prefix| ==> prefix[k] == requests[k];
      RunUntouched(cache, prefix, browser, path);
    }
  }

  /** `loadImageSafely` depends on the cache only through the entry of its own path. */
  lemma SafeResultLocal(c1: map<string, Element>, c2: map<string, Element>, path: string, identifier: Identifier, probe: Probe)
    requires path in c1 <==> path in c2
    requires path in c1 ==> c1[path] == c2[path]
    ensures SafeResult(c1, path, identifier, probe) == SafeResult(c2, path, identifier, probe)
  {
  }

  /** What one request contributes to `loadedImages` when it runs against `cache`. */
  function Loaded(cache: map<string, Element>, browser: string -> Probe): Request -> seq<LoadedImage>
  {
    (request: Request) =>
      var r := SafeResult(cache, request.path, request.identifier, browser(request.path));
      if r.Some? then [r.value] else []
  }

  /** The requests that give an image when run against `cache`. */
  function Loads(cache: map<string, Element>, browser: string -> Probe): Request -> bool
  {
    (request: Request) => SafeResult(cache, request.path, request.identifier, browser(request.path)).Some?
  }

  /**
   * With distinct paths, running the requests one after the other gives
   * every request the result it gets against the initial cache alone, so the
   * sequential run agrees with the concurrent one, whatever the interleaving.
   */
  lemma {:induction false} RunIsIndependent(cache: map<string, Element>, requests: seq<Request>, browser: string -> Probe)
    requires PathsDistinct(requests)
    ensures Collect(RunResults(cache, requests, browser)) == FlatMap(Loaded(cache, browser), requests)
  {
    if |requests| > 0 {
      var prefix, last := requests[..|requests| - 1], requests[|requests| - 1];
      assert PathsDistinct(prefix);
      RunIsIndependent(cache, prefix, browser);
      var before := RunCache(cache, prefix, browser);
      RunUntouched(cache, prefix, browser, last.path);
      SafeResultLocal(before, cache, last.path, last.identifier, browser(last.path));
      var settled := Fulfilled(SafeResult(before, last.path, last.identifier, browser(last.path)));
      FlatMapAppend(KeptValue, RunResults(cache, prefix, browser), [settled]);
      assert FlatMap(KeptValue, [settled]) == KeptValue(settled);
    }
  }

  /**
   * What `loadAllIcons` stores: one record per request that gives an image
   * against the initial cache, in request order (the twelve sizes, the
   * favicon, the SVG icon), at most fourteen.
   */
  lemma LoadedImagesSpec(cache: map<string, Element>, browser: string -> Probe)
    ensures var loaded := Collect(RunResults(cache, Requests(), browser));
            var kept := Filter(Loads(cache, browser), Requests());
            |loaded| == |kept| <= 14
            && forall k :: 0 <= k < |loaded| ==>
                 var probe := browser(kept[k].path);
                 probe.found && (kept[k].path in cache || probe.load.Some?)
                 && loaded[k] == Record(kept[k].path, kept[k].identifier, LoadResult(cache, kept[k].path, probe.load).value)
  {
    RequestsOrder();
    RequestPathsDistinct();
    RunIsIndependent(cache, Requests(), browser);
    forall request: Request
      ensures |Loaded(cache, browser)(request)| == if Loads(cache, browser)(request) then 1 else 0
    {
    }
    FlatMapSingletons(Loaded(cache, browser), Loads(cache, browser), Requests());
    var kept := Filter(Loads(cache, browser), Requests());
    forall k | 0 <= k < |kept|
      ensures Loads(cache, browser)(kept[k])
    {
      assert kept[k] in kept;
    }
  }

  /** A record with a size is the icon request for that size; the others are the favicon and the SVG icon. */
  lemma LoadedSizesAreStandard(cache: map<string, Element>, browser: string -> Probe, image: LoadedImage)
    requires image in Collect(RunResults(cache, Requests(), browser))
    ensures image.size.Some? ==> image.size.value in IconSizes && image.path == IconPath(image.size.value)
    ensures image.size.None? ==> image.path in {FaviconPath, SvgPath}
  {
    var loaded := Collect(RunResults(cache, Requests(), browser));
    var kept := Filter(Loads(cache, browser), Requests());
    LoadedImagesSpec(cache, browser);
    var k :| 0 <= k < |loaded| && loaded[k] == image;
    var request := kept[k];
    assert request in Requests();
    RequestShape(request);
  }

  /** `getImageBySize`: the position of the first image whose size is `size`. */
  function FindSize(images: seq<LoadedImage>, size: int): (r: Option<nat>)
    ensures r.Some? ==> r.value < |images| && HasSizeValue(images[r.value], size)
    ensures r.Some? ==> forall k :: 0 <= k < r.value ==> !HasSizeValue(images[k], size)
    ensures r.None? ==> forall k :: 0 <= k < |images| ==> !HasSizeValue(images[k], size)
  {
    if |images| == 0 then None
    else if HasSizeValue(images[0], size) then Some(0)
    else match FindSize(images[1..], size)
      case None => None
      case Some(k) => Some(k + 1)
  }

  /** `img.size === size`: the image has a size and it is `size`. */
  predicate HasSizeValue(image: LoadedImage, size: int)
  {
    image.size.Some? && image.size.value == size
  }

  /** The image has a size (`img.size !== null`). */
  predicate HasSize(image: LoadedImage)
  {
    image.size.Some?
  }

  /** The size an image contributes to `filter(...).map(img => img.size)`. */
  function SizeEntry(image: LoadedImage): seq<int>
  {
    if image.size.Some? then [image.size.value] else []
  }

  /** The non-null sizes of the images, in order, duplicates kept. */
  function NonNullSizes(images: seq<LoadedImage>): seq<int>
  {
    FlatMap(SizeEntry, images)
  }

  /** The non-null sizes are those of the images that have one, one each, in order. */
  lemma NonNullSizesSpec(images: seq<LoadedImage>)
    ensures |NonNullSizes(images)| == |Filter(HasSize, images)|
    ensures forall k :: 0 <= k < |NonNullSizes(images)| ==>
              NonNullSizes(images)[k] == Filter(HasSize, images)[k].size.value
  {
    FlatMapSingletons(SizeEntry, HasSize, images);
  }

  /** An image kept by `generateManifestIcons`: it has a size and a `.png` path. */
  predicate IsPngWithSize(image: LoadedImage)
  {
    image.size.Some? && EndsWith(image.path, ".png")
  }

  /** The manifest entry `generateManifestIcons` maps a kept image to. */
  function ManifestEntry(image: LoadedImage): seq<Icon>
  {
    if IsPngWithSize(image)
    then [Icon(StripDotSlash(image.path), SizeLabel(image.size.value), "image/png", "any maskable")]
    else []
  }

  /** The loader's entry for an image of size `n` is the one the manifest generator makes for that size. */
  lemma ManifestEntryAgrees(image: LoadedImage)
    requires IsPngWithSize(image)
    ensures ManifestEntry(image) == [ManifestGenerator.StandardIcon(image.size.value, image)]
  {
  }

  class ImageLoader {
    /** `imageCache`: the element loaded for each path. */
    var imageCache: map<string, Element>
    /** `loadedImages`: the records kept by the last `loadAllIcons`. */
    var loadedImages: seq<LoadedImage>

    constructor ()
      ensures imageCache == map[] && loadedImages == []
    {
      imageCache := map[];
      loadedImages := [];
    }

    /** `loadImage(path)`, where `load` is what the browser's `Image` gives for the path. */
    method LoadImage(path: string, load: Option<Element>) returns (r: Result<Element, string>)
      modifies this
      ensures r == LoadResult(old(imageCache), path, load)
      ensures imageCache == CacheAfterLoad(old(imageCache), path, load)
      ensures loadedImages == old(loadedImages)
    {
      if path in imageCache {
        return Success(imageCache[path]);
      }
      match load
      case Some(element) =>
        imageCache := imageCache[path := element];
        r := Success(element);
      case None =>
        r := Failure("Failed to load image: " + path);
    }

    /** `loadImageSafely(path, identifier)`: a record, or None where the source resolves to null. */
    method LoadImageSafely(path: string, identifier: Identifier, probe: Probe) returns (r: Option<LoadedImage>)
      modifies this
      ensures r == SafeResult(old(imageCache), path, identifier, probe)
      ensures imageCache == SafeCache(old(imageCache), path, probe)
      ensures loadedImages == old(loadedImages)
    {
      if !probe.found {
        return None;
      }
      var imageData := LoadImage(path, probe.load);
      if imageData.Failure? {
        return None;
      }
      r := Some(Record(path, identifier, imageData.value));
    }

    /**
     * `loadAllIcons`: one request per standard size, then the favicon, then
     * the SVG icon, run one after the other; `loadedImages` becomes the kept
     * results in request order.
     */
    method LoadAllIcons(browser: string -> Probe) returns (images: seq<LoadedImage>)
      modifies this
      ensures imageCache == RunCache(old(imageCache), Requests(), browser)
      ensures loadedImages == Collect(RunResults(old(imageCache), Requests(), browser))
      ensures images == loadedImages
    {
      ghost var requests := Requests();
      RequestsOrder();
      var results: seq<Settled> := [];
      var sizes := IconSizes;
      var i := 0;
      while i < |sizes|
        invariant 0 <= i <= |sizes|
        invariant results == RunResults(old(imageCache), requests[..i], browser)
        invariant imageCache == RunCache(old(imageCache), requests[..i], browser)
      {
        var size := sizes[i];
        var iconPath := IconPath(size);
        RunStep(old(imageCache), requests, browser, i);
        var result := LoadImageSafely(iconPath, Size(size), browser(iconPath));
        results := results + [Fulfilled(result)];
        i := i + 1;
      }
      RunStep(old(imageCache), requests, browser, 12);
      var favicon := LoadImageSafely(FaviconPath, Label("favicon"), browser(FaviconPath));
      results := results + [Fulfilled(favicon)];
      RunStep(old(imageCache), requests, browser, 13);
      var svg := LoadImageSafely(SvgPath, Label("svg"), browser(SvgPath));
      results := results + [Fulfilled(svg)];
      assert requests[..14] == requests;
      loadedImages := Collect(results);
      images := loadedImages;
    }

    /** `getImageBySize(size)`: the first loaded image whose size is `size`, or None for null. */
    function GetImageBySize(size: int): (r: Option<LoadedImage>)
      reads this
      ensures r.None? <==> forall k :: 0 <= k < |loadedImages| ==> !HasSizeValue(loadedImages[k], size)
      ensures r.Some? ==> exists k :: 0 <= k < |loadedImages| && loadedImages[k] == r.value
                                      && HasSizeValue(r.value, size)
                                      && forall j :: 0 <= j < k ==> !HasSizeValue(loadedImages[j], size)
    {
      match FindSize(loadedImages, size)
      case None => None
      case Some(k) => Some(loadedImages[k])
    }

    /** `getAvailableSizes()`: the non-null sizes, ascending, duplicates kept. */
    function GetAvailableSizes(): (r: seq<int>)
      reads this
      ensures Sorted(r)
      ensures multiset(r) == multiset(NonNullSizes(loadedImages))
    {
      SortAscending(NonNullSizes(loadedImages))
    }

    /** `generateManifestIcons()`: one entry per loaded image with a size and a `.png` path, in order. */
    function GenerateManifestIcons(): (r: seq<Icon>)
      reads this
      ensures |r| == |Filter(IsPngWithSize, loadedImages)|
      ensures forall k :: 0 <= k < |r| ==>
                var image := Filter(IsPngWithSize, loadedImages)[k];
                r[k] == Icon(StripDotSlash(image.path), SizeLabel(image.size.value), "image/png", "any maskable")
    {
      FlatMapSingletons(ManifestEntry, IsPngWithSize, loadedImages);
      FlatMap(ManifestEntry, loadedImages)
    }
  }

  /** Whatever sort produced them, ascending sizes with the same elements are the available sizes. */
  lemma AvailableSizesUnique(loader: ImageLoader, sizes: seq<int>)
    requires Sorted(sizes) && multiset(sizes) == multiset(NonNullSizes(loader.loadedImages))
    ensures sizes == loader.GetAvailableSizes()
  {
    SortedUnique(sizes, loader.GetAvailableSizes());
  }

  /** Every size label of the manifest icons is that of an available size. */
  lemma ManifestIconsHaveAvailableSizes(loader: ImageLoader, k: nat)
    requires k < |loader.GenerateManifestIcons()|
    ensures exists n :: n in loader.GetAvailableSizes() && loader.GenerateManifestIcons()[k].sizes == SizeLabel(n)
  {
    var image := Filter(IsPngWithSize, loader.loadedImages)[k];
    var n := image.size.value;
    assert image in loader.loadedImages;
    var j :| 0 <= j < |loader.loadedImages| && loader.loadedImages[j] == image;
    FlatMapMember(SizeEntry, loader.loadedImages, j, n);
    assert n in multiset(NonNullSizes(loader.loadedImages));
  }
}
