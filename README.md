# IconForge core in Dafny

A model of the computational core of the IconForge PWA icon generator, with proofs about it. The core has three parts.

- **ICO encoder** (`PngIcoConverter.convertAsync` in `src/script/index.js`). It writes a 6-byte ICONDIR header, one 16-byte ICONDIRENTRY per image and then the PNG payloads, all into a zero-filled `Uint8Array`.
  - `Bytes` models the byte-level JavaScript semantics: Uint8Array stores, ToInt32, and `to2Bytes`/`to4Bytes` with their little-endian readers.
  - `IcoEncoder` holds the encoder. `Encode` is the reference function. `ConvertAsync` is the imperative version: it fills a Dafny `array` step by step with a running `imgPos` cursor and is proved equal to `Encode`.
- **Manifest generator** (`ManifestGenerator` in `src/script/manifest-generator.js`), in module `ManifestGenerator`. It covers:
  - the icons array: standard icons picked by file name, then splash icons recognised by the pattern `splash-(\d+)x(\d+)`;
  - the optional shortcut;
  - the base manifest, and the merging of settings over it;
  - `validateManifest`, including the TypeErrors it throws on a malformed `icons` value.

  JSON values are modelled in `Json`. The string operations the generator relies on are modelled in `JsStrings`: `includes`, `replace` with a string pattern, template-literal number formatting, and the regular-expression search.
- **Image loader** (`ImageLoader` in `src/script/image-loader.js`), in module `ImageLoading`. `ImageLoader` is a class:
  - `imageCache` is a `map` field that `LoadImage` updates;
  - `loadedImages` is a `seq` field that `LoadAllIcons` reassigns;
  - the queries `getImageBySize`, `getAvailableSizes` and `generateManifestIcons` are functions that read the object.

  The browser is a parameter. For each path it gives a `Probe`: whether the existence check succeeds, and what the load returns.

Shared pieces:
- `Images` holds the loaded-image record, the icon entry and the standard size list.
- `Seqs` models `filter`, `map` and `sort((a, b) => a - b)`, plus a concatenating map (`FlatMap`) that specifies loops pushing zero or one element per step.

Choices that follow the code:
- An empty input list is accepted and encodes to the bare 6-byte header with count 0.
- The input-count limit is `inLen > 65536`, not the 16-bit limit of the count field. See Findings.
- A width or height of exactly 256 passes the size check. It is written as 256, and the `Uint8Array` stores it as 0.
- A truthy `bpp` is written through `to2Bytes`, which keeps it modulo 2^16. An absent or zero `bpp` writes `[0, 0]`.
- Errors come out in the order the code raises them. `TOO_MANY_FILES` is checked first. Then the inputs are checked in order; for each one, a decode failure (`INVALID_IMAGE`) comes before the size check (`INVALID_SIZE`).

## Model

| member | source | states |
|---|---|---|
| Bytes.ToUint8 | src/script/index.js:42-55 | a value stored into a Uint8Array is kept modulo 256, so values 0..255 are stored unchanged |
| Bytes.ToInt32 | src/script/index.js:77-83 | the operand conversion of `&` and `>>` yields a signed 32-bit value congruent to the input modulo 2^32 |
| Bytes.To2BytesAsWritten | src/script/index.js:77-79 | `to2Bytes(n)` is `[n & 255, (n >> 8) & 255]` on the int32 value of `n` |
| Bytes.To4BytesAsWritten | src/script/index.js:81-83 | `to4Bytes(n)` is the four masked shifts 0, 8, 16 and 24 of the int32 value of `n` |
| Bytes.To2BytesRoundTrip | src/script/index.js:77-79 | reading back the two bytes little-endian gives `n` modulo 2^16 for every integer, and `n` itself for 0 <= n < 2^16 |
| Bytes.To4BytesRoundTrip | src/script/index.js:81-83 | reading back the four bytes little-endian gives `n` modulo 2^32 for every integer, and `n` itself for 0 <= n < 2^32 |
| IcoEncoder.SumInputLen | src/script/index.js:85-96 | the loop total is the sum over the inputs of the Blob size or the ArrayBuffer byte length |
| IcoEncoder.StoredDimension | src/script/index.js:44-45 | a width or height below 256 is stored as itself; 256 and above are stored as 0 |
| IcoEncoder.EntryValues | src/script/index.js:42-55 | a directory entry has exactly 16 values |
| IcoEncoder.Encode | src/script/index.js:17-62 | more than 65536 inputs fail with TOO_MANY_FILES; the result is a success exactly when the count is allowed and every input decodes and passes the size check; a success is 6 + 16·N + the payload sizes long |
| IcoEncoder.Set | src/script/index.js:58 | `arr.set(values, offset)` overwrites exactly the positions offset .. offset + |values| with the values modulo 256 and leaves every other byte unchanged |
| IcoEncoder.ConvertAsync | src/script/index.js:17-62 | the imperative encoder returns exactly what `Encode` specifies, error or buffer |
| IcoEncoder.WriteImages | src/script/index.js:29-60 | the loop stops with the first input's error, in input order; otherwise the buffer holds the header, the directory and the payloads |
| IcoEncoder.WriteInput | src/script/index.js:30-59 | one loop pass rejects the input with INVALID_IMAGE or INVALID_SIZE, or writes its entry into the next directory slot and its payload after the previous payloads |
| IcoEncoder.StoreInput | src/script/index.js:42-58 | the two `set` calls put the entry over the first zeroed directory slot and the payload over the start of the zeroed payload area |
| IcoEncoder.EncodeHeader | src/script/index.js:27 | an encoding starts with reserved 0, type 1 and the image count modulo 2^16, all little-endian |
| IcoEncoder.EncodeEntry | src/script/index.js:31-55 | directory slot i, at 6 + 16·i, holds input i's entry with its payload's offset |
| IcoEncoder.OffsetStep | src/script/index.js:29-59 | the first offset is 6 + 16·N; each next offset is the previous one plus the previous payload size; offsets stay inside the buffer |
| IcoEncoder.EncodePayload | src/script/index.js:57-59 | the bytes at input i's recorded offset, for its recorded size, are exactly its payload |
| IcoEncoder.EntryFields | src/script/index.js:42-55 | an entry holds width and height (0 above 255), four zero bytes, the bpp modulo 2^16 when the hint is truthy and 0 otherwise, and the payload size and offset modulo 2^32 |
| IcoEncoder.EncodeRejects | src/script/index.js:30-40 | when the count is allowed, the encoding fails with the error of the first input that fails its checks |
| IcoEncoder.EmptyInputEncodes | src/script/index.js:23-27 | zero inputs encode to `[0, 0, 1, 0, 0, 0]` |
| IcoEncoder.CountWrapsAtMaxFiles | src/script/index.js:19 | as written, 65536 valid inputs are accepted and the header's count reads 0 |
| IcoEncoder.EncodeBoundedCount | src/script/index.js:19-21 | with the limit lowered to 65535, every encoding records its true image count |
| JsStrings.IndexFrom | src/script/manifest-generator.js:49 | `indexOf` from a position inside the string finds the first occurrence at or after it, or reports that there is none |
| JsStrings.IncludesIff | src/script/manifest-generator.js:49 | `includes` holds exactly when the substring occurs at some position |
| JsStrings.ReplaceFirstSpec | src/script/manifest-generator.js:54 | `replace` with a string pattern rewrites only the leftmost occurrence, and changes nothing without one |
| JsStrings.StripLeadingDotSlash | src/script/manifest-generator.js:54 | a path `./rest` becomes `rest` |
| JsStrings.NatToStringRoundTrip | src/script/manifest-generator.js:55 | the decimal form a template literal gives a size parses back to that size |
| JsStrings.NatToStringInjective | src/script/manifest-generator.js:55 | different sizes have different decimal forms |
| JsStrings.MatchSplashSpec | src/script/manifest-generator.js:68 | a match consists of `splash-`, a maximal run of digits, `x` and a maximal run of digits, at the leftmost position where the pattern matches; no match means no position matches |
| JsStrings.MatchSplashIncludesPrefix | src/script/manifest-generator.js:63-68 | a path the pattern matches contains `splash-` |
| Images.IconValue | src/script/manifest-generator.js:53-58 | an icon entry is an object with exactly src, sizes, type and purpose |
| Images.IconSizesIncreasing | src/script/manifest-generator.js:45 | the standard sizes ascend strictly, so each occurs once |
| Images.SizeLabelInjective | src/script/manifest-generator.js:55 | different sizes have different `SxS` labels |
| ManifestGenerator.FindIndex | src/script/manifest-generator.js:48-50 | `find` stops at the first image whose path contains the name, or finds none when no path does |
| ManifestGenerator.GenerateIconsArray | src/script/manifest-generator.js:41-82 | the two push loops build the standard entries, then the splash entries |
| ManifestGenerator.PushSplashIcons | src/script/manifest-generator.js:67-79 | the splash loop appends the entries of the splash images, in order, to what is already there |
| ManifestGenerator.StandardIconsFound | src/script/manifest-generator.js:47-60 | entry k is the standard icon of the k-th size that has an image, taken from the first image whose path names it |
| ManifestGenerator.StandardIconsSpec | src/script/manifest-generator.js:45-60 | standard entries exist exactly for the sizes that have an image, in the order 16 … 512, each size once, with label SxS, type image/png, purpose "any maskable", and src the first matching path without its first `./` |
| ManifestGenerator.SplashPrefilter | src/script/manifest-generator.js:63-69 | the `splash-` pre-filter drops no image the pattern would match |
| ManifestGenerator.SplashEntrySpec | src/script/manifest-generator.js:68-78 | a splash image gives one entry exactly when the pattern matches; the entry has type image/png, purpose "any", and sizes WxH for two digit runs that follow `splash-` in the path |
| ManifestGenerator.SplashIconsFrom | src/script/manifest-generator.js:67-79 | every splash entry is the entry of one of the images |
| ManifestGenerator.SplashIconsAt | src/script/manifest-generator.js:67-79 | splash entries keep the input order: each image's entry sits between those of the images before and after it |
| ManifestGenerator.GenerateShortcuts | src/script/manifest-generator.js:89-111 | no shortcut when no path contains `icon-96x96.png`; otherwise exactly one, url `/?action=new`, whose single icon is the first such path without its first `./` |
| ManifestGenerator.ShortcutIffIcon96 | src/script/manifest-generator.js:90-94 | the shortcut exists exactly when the standard 96x96 icon was found |
| ManifestGenerator.WithGenerated | src/script/manifest-generator.js:25-31 | the base fields are kept and exactly icons and shortcuts are added |
| ManifestGenerator.GenerateManifest | src/script/manifest-generator.js:24-34 | a generated manifest has the base fields unchanged, the icons array and the shortcuts |
| ManifestGenerator.UpdateManifest | src/script/manifest-generator.js:118-120 | every setting overrides; base keys without a setting keep their value; the keys are the union |
| ManifestGenerator.ManifestWithSettings | src/script/manifest-generator.js:128-130 | settings are spread after generation, so they win, including over icons and shortcuts; the generated values stay where no setting replaces them |
| ManifestGenerator.SettingsAgreeWithUpdate | src/script/manifest-generator.js:118-130 | apart from icons and shortcuts, the serialised manifest agrees with `updateManifest` |
| ManifestGenerator.SomeHasSize | src/script/manifest-generator.js:195 | with no null entry, `some` is true exactly when an entry has those sizes; it throws only on a null entry |
| ManifestGenerator.Validate | src/script/manifest-generator.js:176-203 | isValid holds exactly when there are no errors; validation throws exactly when the icon checks throw |
| ManifestGenerator.ValidateManifest | src/script/manifest-generator.js:176-203 | the two push loops return exactly what `Validate` specifies, result or TypeError |
| ManifestGenerator.RequiredErrorsSpec | src/script/manifest-generator.js:181-186 | one error per falsy field, in the order of the field list |
| ManifestGenerator.ValidateErrors | src/script/manifest-generator.js:180-202 | the errors are one message per falsy field among name, start_url and display, in that order; the manifest is valid exactly when all three are truthy, whatever the warnings |
| ManifestGenerator.SizeWarningsSpec | src/script/manifest-generator.js:193-199 | an icons array without null entries gets one warning per size that no entry has, in list order |
| ManifestGenerator.IconWarningsSpec | src/script/manifest-generator.js:188-200 | missing, falsy or empty icons give exactly "No icons specified"; a non-empty array without null entries warns per missing recommended size, 192x192 first; a truthy non-array without a zero length throws |
| ManifestGenerator.BaseFieldsRequired | src/script/manifest-generator.js:4-16 | a manifest that keeps the base fields has a truthy name, start_url and display |
| ManifestGenerator.GeneratedManifestValidates | src/script/manifest-generator.js:176-203 | a generated manifest validates with no errors; its warnings are "No icons specified" when no icon was found, otherwise one per recommended size it lacks |
| ManifestGenerator.RecommendedIconsValidate | src/script/manifest-generator.js:188-200 | when the 192x192 and 512x512 icons were found, the generated manifest validates with no warning at all |
| ImageLoading.IconPath | src/script/image-loader.js:23 | the icon path of a size lies in `./src/img/`, carries the size's SxS label and ends with `.png` |
| ImageLoading.RequestsOrder | src/script/image-loader.js:22-31 | the fourteen requests are the twelve standard sizes in order, then the favicon, then the SVG icon |
| ImageLoading.RequestShape | src/script/image-loader.js:22-31 | a request for a size asks for that size's icon path; the other two are the favicon and the SVG icon |
| ImageLoading.RequestPathsDistinct | src/script/image-loader.js:22-31 | no two of the fourteen requests share a path |
| ImageLoading.LoadResult | src/script/image-loader.js:89-103 | a cached path returns its cached element without loading; otherwise a successful load returns the element the browser loaded, and a failed load rejects with "Failed to load image: " and the path |
| ImageLoading.CacheAfterLoad | src/script/image-loader.js:90-99 | the cache gains an entry only on a fresh successful load, and that entry is the loaded element; existing entries never change |
| ImageLoading.Record | src/script/image-loader.js:57-63 | a record has size equal to the identifier exactly when the identifier is a number, and null otherwise; data and element are the loaded element |
| ImageLoading.SafeResult | src/script/image-loader.js:48-68 | `loadImageSafely` gives a record exactly when the image exists and is cached or loads; errors are swallowed into null |
| ImageLoading.CollectSpec | src/script/image-loader.js:34-36 | the loaded images are the values of the fulfilled non-null results, one each, in order |
| ImageLoading.RunKeepsCache | src/script/image-loader.js:89-103 | running requests never removes or changes a cached element |
| ImageLoading.RunUntouched | src/script/image-loader.js:96-99 | requests for other paths leave a path's cache entry as it was |
| ImageLoading.SafeResultLocal | src/script/image-loader.js:48-68 | `loadImageSafely` depends on the cache only through its own path's entry |
| ImageLoading.RunIsIndependent | src/script/image-loader.js:33-36 | with distinct paths, the loaded images of the sequential run are those each request yields when run alone against the initial cache, in request order, as a concurrent run gives |
| ImageLoading.LoadedImagesSpec | src/script/image-loader.js:18-36 | the loaded images are one record per request that yields an image, in request order, at most fourteen |
| ImageLoading.LoadedSizesAreStandard | src/script/image-loader.js:22-31 | a loaded record with a size is that standard size's icon; a record without a size is the favicon or the SVG icon |
| ImageLoading.FindSize | src/script/image-loader.js:119 | `find` stops at the first image whose size equals the argument, or finds none |
| ImageLoading.NonNullSizesSpec | src/script/image-loader.js:127-129 | the non-null sizes are those of the images that have one, one each, in order |
| ImageLoading.ManifestEntryAgrees | src/script/image-loader.js:140-145 | the loader's manifest entry for an image of size n is the one the manifest generator makes for size n |
| ImageLoading.ImageLoader.constructor | src/script/image-loader.js:3-6 | a new loader has an empty cache and no loaded images |
| ImageLoading.ImageLoader.LoadImage | src/script/image-loader.js:89-103 | the result and the new cache are those LoadResult and CacheAfterLoad specify; loadedImages is untouched |
| ImageLoading.ImageLoader.LoadImageSafely | src/script/image-loader.js:48-68 | the result and the new cache are those SafeResult and SafeCache specify |
| ImageLoading.ImageLoader.LoadAllIcons | src/script/image-loader.js:18-40 | loadedImages becomes the kept results of the fourteen requests in request order, and it is returned |
| ImageLoading.ImageLoader.GetImageBySize | src/script/image-loader.js:118-120 | the first loaded image whose size equals the argument, or null exactly when none has it |
| ImageLoading.ImageLoader.GetAvailableSizes | src/script/image-loader.js:126-131 | the sizes are ascending and are exactly the non-null sizes, duplicates kept |
| ImageLoading.ImageLoader.GenerateManifestIcons | src/script/image-loader.js:137-146 | one entry per loaded image with a size and a `.png` path, in order: src without its first `./`, sizes NxN, type image/png, purpose "any maskable" |
| ImageLoading.AvailableSizesUnique | src/script/image-loader.js:126-131 | any ascending arrangement of the non-null sizes is the result, so the sort's stability does not matter |
| ImageLoading.ManifestIconsHaveAvailableSizes | src/script/image-loader.js:126-146 | every manifest icon's label is that of an available size |
| Seqs.SortAscending | src/script/image-loader.js:130 | the numeric sort gives an ascending permutation of its input |
| Seqs.SortedUnique | src/script/image-loader.js:130 | two ascending sequences with the same elements are equal |

## Left out

- Browser image decoding (`loadImageAsync`, `new Image()`, `URL.createObjectURL`, `checkImageExists`) is not modelled. The encoder takes each image's decoded width and height, or a decode failure, as part of its input. The loader takes a `Probe` per path: the existence check and the load outcome.
- Blob construction and MIME wrapping (`convertToBlobAsync`, `toBlob`) are not modelled. A payload is a Blob or an ArrayBuffer holding a byte sequence, and both are measured by their byte count.
- `src/script/icon-generator.js` is not part of this model. It is canvas drawing with floating-point layout, DOM handlers, ZIP bundling, downloads and templating.
- `sw.js` is not part of this model. It is Cache API and fetch plumbing.
- In manifest-generator.js, `JSON.stringify` is not modelled, nor the key order of serialised objects (objects are maps). `downloadManifest` and `copyManifestToClipboard` are left out too. `ManifestWithSettings` models the object `generateManifestJSON` serialises.
- Logging (`console.log`, `console.warn`), global instances and `DOMContentLoaded` wiring are not modelled.
- `ImageLoader.LoadAllIcons` runs the requests one after the other. The source starts them together and waits with `Promise.allSettled`. `RunIsIndependent` shows that with distinct request paths (`RequestPathsDistinct`) the loaded images are those each request yields against the initial cache alone, so the order of completion cannot change `loadedImages`. What is not modelled is a second, overlapping `loadAllIcons` call on the same loader.
- `getLoadedImages` is the `loadedImages` field itself, and `preloadImages` only calls `loadAllIcons` and logs. Neither has a member of its own.
- The static `SPLASH_SIZES` list is never read by the source, so it is not modelled.
- `ImageLoading.ImageLoader.GetImageBySize`: the argument is a number. A `null` argument, which would match the first image without a size, is not modelled.
- JSON numbers are integers (`Json.Num`), so `NaN`, fractional values and `undefined` entries are not modelled. Only an absent key stands for `undefined`.
- `ManifestGenerator.SomeHasSize` throws only on a `null` entry. Reading `sizes` of any other non-object value gives `undefined`, which never equals a size.
- Replacement patterns such as `$&` in `replace` are not modelled. The source only ever replaces `./` with the empty string.
- `JsStrings.NatToString`: the `${size}` template literal is modelled as plain decimal digits, which is right for non-negative integers below 10^21. JavaScript writes 10^21 and above in exponent form (`1e+21`), and the model does not. The program's own sizes are at most 512 (`ImageLoading.LoadedSizesAreStandard`).
- `ImageLoading.ImageLoader.GenerateManifestIcons`: its `NxN` labels are those of `JsStrings.NatToString`, so they match JavaScript only for sizes below 10^21. Every size `LoadAllIcons` records is a standard size of at most 512.
- `IcoEncoder.EntryValues` states only the entry's length. Its field-by-field content is stated by `IcoEncoder.EntryFields` on the stored bytes.

## Findings

| source | as written | input that shows it | evidently intended | confidence | as-written member | corrected member |
|---|---|---|---|---|---|---|
| src/script/index.js:19 | `inLen > MaxFiles` with `MaxFiles = 65536` accepts 65536 images, but the count field is two bytes, and `to2Bytes(65536)` writes `[0, 0]` | 65536 valid 1x1 inputs: the encoding succeeds and its header claims 0 images | reject more than 65535 images, so that the count field always holds the true count | not executed | IcoEncoder.CountWrapsAtMaxFiles | IcoEncoder.EncodeBoundedCount |
