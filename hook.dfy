/**
  `useBackgroundImageSize(asCallbackFlagOrUrls)`: the hook's mode dispatch,
  its unmount guard and the shape of what it returns.

  A `BackgroundImageSizeHook` object holds the hook's state: `images` (the
  `useState` value, `None` for `null`) and `refPresent` (whether
  `ref.current` is set). One call of `Callback` is one resolution cycle;
  one call of `Use` is one render followed by its effect. The `await` of a
  cycle is collapsed into the call: `refAfterLoad` is whether `ref.current`
  is set when the loads have finished, `style` is the element's computed
  `background-image`, and `loader` reports each image's natural size.
*/
module Hook {
  import opened Wrappers
  import opened CssUrl
  import opened ImageLoad

  /** The hook's argument, by its JavaScript type. An omitted argument is
      `Flag(false)`; `null`, numbers and objects other than arrays are
      `OtherValue`. */
  datatype Input = UrlList(urls: seq<string>) | Url(url: string) | Flag(manual: bool) | OtherValue

  /** `[ref, images]` or `[ref, images, callback]`; the ref and the callback
      are the hook object itself. */
  datatype HookResult = Pair(images: Option<Images>) | WithCallback(images: Option<Images>)

  /** The length of the returned array. */
  function Arity(r: HookResult): nat {
    if r.Pair? then 2 else 3
  }

  /** The effect calls the callback for every argument except `true`. */
  predicate RunsAutomatically(input: Input) {
    input != Flag(true)
  }

  /** The branch of a cycle that awaits image loads, during which the ref may
      change. */
  predicate Awaits(input: Input, style: string, refAtStart: bool) {
    input.UrlList? || input.Url? || (input.Flag? && refAtStart && ExtractUrls(style).Some?)
  }

  /** What one cycle passes to `setImages`, or `None` when it does not call
      it: the three type tests in turn, each guarded by `ref.current`. */
  function Published(input: Input, loader: Loader, style: string, refAtStart: bool, refAtPublish: bool): (r: Option<Images>)
    // the unmount guard
    ensures r.Some? ==> refAtPublish
    ensures input.Flag? && !refAtStart ==> r.None?
    ensures input.OtherValue? ==> r.None?
    // a list always publishes a list of the same URLs, in order
    ensures input.UrlList? ==> (r.Some? <==> refAtPublish)
    ensures input.UrlList? && r.Some? ==> r.value.Many? && Sources(r.value) == input.urls
    // a string publishes a bare descriptor of that URL
    ensures input.Url? ==> (r.Some? <==> refAtPublish)
    ensures input.Url? && r.Some? ==> r.value.Single? && r.value.image.src == input.url
    // a boolean publishes the extracted URLs, bare when there is exactly one
    ensures input.Flag? ==> (r.Some? <==> refAtStart && ExtractUrls(style).Some? && refAtPublish)
    ensures input.Flag? && r.Some? ==>
      Sources(r.value) == ExtractUrls(style).value &&
      (r.value.Single? <==> |ExtractUrls(style).value| == 1)
    // every size is the one loaded for that descriptor's URL
    ensures r.Some? ==> forall d :: d in Descriptors(r.value) ==> (d.width, d.height) == loader(d.src)
  {
    match input
    case UrlList(urls) =>
      LoadAllSources(loader, urls);
      if refAtPublish then Some(Many(LoadAll(loader, urls))) else None
    case Url(url) =>
      if refAtPublish then Some(Single(Load(loader, url))) else None
    case Flag(_) =>
      if refAtStart then
        match ExtractUrls(style)
        case Some(urls) =>
          ExtractUrlsAreBodies(style);
          LoadAllSources(loader, urls);
          if refAtPublish then Some(Shape(LoadAll(loader, urls))) else None
        case None => None
      else None
    case OtherValue => None
  }

  /** The manual trigger performs the same cycle as the automatic mode. */
  lemma ManualCycleIsAutoCycle(loader: Loader, style: string, refAtStart: bool, refAtPublish: bool)
    ensures Published(Flag(true), loader, style, refAtStart, refAtPublish) ==
            Published(Flag(false), loader, style, refAtStart, refAtPublish)
  {
  }

  /** The test element's style, both images reporting 200 by 200, publishes
      one bare descriptor for `https://test/file.png`. */
  lemma TestElementPublishesOneDescriptor(loader: Loader)
    requires forall url :: loader(url) == (200, 200)
    ensures Published(Flag(false), loader, "url(https://test/file.png)", true, true) ==
            Some(Single(Descriptor(200, 200, "https://test/file.png")))
  {
    TestElementUrlExtracts();
  }

  /** Two URLs publish two descriptors, in the order given. */
  lemma UrlListPublishesInOrder(loader: Loader)
    requires forall url :: loader(url) == (200, 200)
    ensures Published(UrlList(["./foo/bar", "./one/two"]), loader, "", false, true) ==
            Some(Many([Descriptor(200, 200, "./foo/bar"), Descriptor(200, 200, "./one/two")]))
  {
    var ds := LoadAll(loader, ["./foo/bar", "./one/two"]);
    assert ds[0] == Descriptor(200, 200, "./foo/bar");
    assert ds[1] == Descriptor(200, 200, "./one/two");
    assert ds == [Descriptor(200, 200, "./foo/bar"), Descriptor(200, 200, "./one/two")];
  }

  class BackgroundImageSizeHook {
    var refPresent: bool
    var images: Option<Images>

    /** The first render: `useState(null)`, with the caller's ref. */
    constructor (refPresent: bool)
      ensures this.refPresent == refPresent && images == None
    {
      this.refPresent := refPresent;
      images := None;
    }

    /** The element mounting or unmounting: React setting `ref.current`. */
    method SetRef(present: bool)
      modifies this
      ensures refPresent == present && images == old(images)
    {
      refPresent := present;
    }

    /** The hook's `callback`: one resolution cycle. Returns whether the
        element's computed style was read. */
    method Callback(input: Input, loader: Loader, style: string, refAfterLoad: bool) returns (styleRead: bool)
      modifies this
      ensures styleRead <==> input.Flag? && old(refPresent)
      ensures refPresent == if Awaits(input, style, old(refPresent)) then refAfterLoad else old(refPresent)
      ensures images == match Published(input, loader, style, old(refPresent), refPresent)
                        case Some(v) => Some(v)
                        case None => old(images)
      ensures images != old(images) ==> refPresent
    {
      styleRead := false;
      if input.UrlList? {
        var imgs := LoadAll(loader, input.urls);
        refPresent := refAfterLoad;
        if refPresent {
          images := Some(Many(imgs));
        }
      }
      if input.Url? {
        var image := Load(loader, input.url);
        refPresent := refAfterLoad;
        if refPresent {
          images := Some(Single(image));
        }
      }
      if input.Flag? {
        if refPresent {
          styleRead := true;
          var matches := MatchAll(style);
          if matches.Some? {
            var texts := matches.value;
            var urls := seq(|texts|, i requires 0 <= i < |texts| => ReplaceWithGroup2(texts[i]));
            assert ExtractUrls(style) == Some(urls);
            ExtractUrlsAreBodies(style);
            var imgs := LoadAll(loader, urls);
            refPresent := refAfterLoad;
            if refPresent {
              images := Some(Shape(imgs));
            }
          }
        }
      }
    }

    /** One render followed by its effect: the render returns the current
        `images` (with the callback when the argument is `true`), then the
        effect runs a cycle unless the argument is `true`. */
    method Use(input: Input, loader: Loader, style: string, refAfterLoad: bool) returns (result: HookResult)
      modifies this
      ensures result == if input == Flag(true) then WithCallback(old(images)) else Pair(old(images))
      ensures Arity(result) == if RunsAutomatically(input) then 2 else 3
      ensures !RunsAutomatically(input) ==> images == old(images) && refPresent == old(refPresent)
      ensures RunsAutomatically(input) ==>
        refPresent == (if Awaits(input, style, old(refPresent)) then refAfterLoad else old(refPresent)) &&
        images == match Published(input, loader, style, old(refPresent), refPresent)
                  case Some(v) => Some(v)
                  case None => old(images)
    {
      result := if input == Flag(true) then WithCallback(images) else Pair(images);
      if RunsAutomatically(input) {
        var _ := Callback(input, loader, style, refAfterLoad);
      }
    }
  }
}
