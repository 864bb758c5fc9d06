/**
  Image descriptors and the shaping of a cycle's result. Loading an image is
  an injected, total `Loader` from a URL to its natural (width, height): the
  browser's `Image` object, its `onload` event and `Promise.all` are replaced
  by that function, so every load completes and the join keeps input order.
*/
module ImageLoad {

  /** `{ width, height, src }` as `getImagePromise` resolves it. */
  datatype Descriptor = Descriptor(width: nat, height: nat, src: string)

  /** A published value: a bare descriptor or an ordered list of them. */
  datatype Images = Single(image: Descriptor) | Many(images: seq<Descriptor>)

  /** The natural size of the image at a URL. */
  type Loader = string -> (nat, nat)

  /** `getImagePromise(src)`: the descriptor carries the requested URL itself
      and the size the loader reports for it. */
  function Load(loader: Loader, src: string): (d: Descriptor)
    ensures d.src == src && (d.width, d.height) == loader(src)
  {
    var (w, h) := loader(src);
    Descriptor(w, h, src)
  }

  /** `Promise.all(urls.map(getImagePromise))`: one descriptor per URL, in
      the order of the URLs. */
  function LoadAll(loader: Loader, urls: seq<string>): (r: seq<Descriptor>)
    ensures |r| == |urls|
    ensures forall i :: 0 <= i < |urls| ==> r[i] == Load(loader, urls[i])
  {
    if |urls| == 0 then [] else [Load(loader, urls[0])] + LoadAll(loader, urls[1..])
  }

  /** The descriptors a published value holds, in order. */
  function Descriptors(images: Images): seq<Descriptor> {
    match images
    case Single(d) => [d]
    case Many(ds) => ds
  }

  /** The URLs a published value was loaded from, in order. */
  function Sources(images: Images): seq<string> {
    var ds := Descriptors(images);
    seq(|ds|, i requires 0 <= i < |ds| => ds[i].src)
  }

  /** `imgs.length > 1 ? imgs : imgs[0]`: a bare descriptor for exactly one
      image, the list otherwise; nothing is lost or reordered. */
  function Shape(imgs: seq<Descriptor>): (r: Images)
    requires |imgs| > 0
    ensures r.Single? <==> |imgs| == 1
    ensures Descriptors(r) == imgs
  {
    if |imgs| > 1 then Many(imgs) else Single(imgs[0])
  }

  /** Loading a list of URLs gives descriptors whose sources are exactly those
      URLs and whose sizes are the loader's. */
  lemma LoadAllSources(loader: Loader, urls: seq<string>)
    ensures Sources(Many(LoadAll(loader, urls))) == urls
    ensures forall d :: d in LoadAll(loader, urls) ==> (d.width, d.height) == loader(d.src)
  {
    var ds := LoadAll(loader, urls);
    assert forall i :: 0 <= i < |urls| ==> Sources(Many(ds))[i] == urls[i];
  }
}
