/**
 * The records the image loader produces and the manifest generator consumes,
 * the icon entry both of them emit, and the standard icon sizes with the
 * `SxS` label both of them build from a size.
 */
module Images {
  import opened Wrappers
  import opened Json
  import opened JsStrings
  import opened Seqs

  /** A loaded HTMLImageElement, known only by its identity. */
  datatype Element = Element(id: nat)

  /** The second argument of `loadImageSafely`: an icon size or a name such as 'favicon'. */
  datatype Identifier = Size(n: nat) | Label(name: string)

  /** `{ path, identifier, size, data, element }`, as built by `loadImageSafely`. */
  datatype LoadedImage = LoadedImage(path: string, identifier: Identifier, size: Option<nat>,
                                     data: Element, element: Element)

  /** A manifest icon entry `{ src, sizes, type, purpose }`. */
  datatype Icon = Icon(src: string, sizes: string, mediaType: string, purpose: string)

  /** An icon entry as the JSON object it is. */
  function IconValue(icon: Icon): (v: Value)
    ensures v.Obj? && v.fields.Keys == {"src", "sizes", "type", "purpose"}
    ensures v.fields["sizes"] == Str(icon.sizes)
  {
    Obj(map["src" := Str(icon.src), "sizes" := Str(icon.sizes),
            "type" := Str(icon.mediaType), "purpose" := Str(icon.purpose)])
  }

  /** The standard PWA icon sizes, smallest first. */
  const IconSizes: seq<nat> := [16, 32, 48, 72, 96, 128, 144, 152, 192, 256, 384, 512]

  /** The standard sizes are listed smallest first, each once. */
  lemma IconSizesIncreasing()
    ensures Increasing(IconSizes)
  {
    var s := IconSizes;
    assert forall i :: 0 < i < |s| ==> s[i - 1] < s[i];
    AdjacentIncreasing(s);
  }

  /** The template literal `${size}x${size}`. */
  function SizeLabel(size: nat): string
  {
    NatToString(size) + "x" + NatToString(size)
  }

  /** Different sizes have different labels. */
  lemma SizeLabelInjective(a: nat, b: nat)
    ensures SizeLabel(a) == SizeLabel(b) ==> a == b
  {
    var sa, sb := NatToString(a), NatToString(b);
    if SizeLabel(a) == SizeLabel(b) {
      assert sa == SizeLabel(a)[..|sa|];
      assert sb == SizeLabel(b)[..|sb|];
      NatToStringInjective(a, b);
    }
  }
}
