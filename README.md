# background-image-size-hook, modelled in Dafny

`useBackgroundImageSize` is a React hook. It finds the natural pixel size of
one or more images. The images are given as URLs, or they are taken from the
CSS `background-image` of the element the returned ref is attached to. This
project models the hook's logic:

- `CssUrl` (`css_url.dfy`) models the regular expression `/url\((['"`])?(.+?)\1\)/`,
  its global `match` over a `background-image` value, and the `$2` replacement
  on each whole match. The pattern is written twice, once as declarative ghost
  predicates and once as an executable scanner (`MatchAt`, `FirstMatch`, `Scan`,
  `ExtractUrls`), with contracts that connect the two.
- `ImageLoad` (`image_load.dfy`) models `getImagePromise`, the
  `Promise.all(... .map(getImagePromise))` join, and the
  `imgs.length > 1 ? imgs : imgs[0]` shaping. Loading goes through an injected
  total `Loader` from a URL to its natural (width, height).
- `Hook` (`hook.dfy`) models the state and the cycle. `Published` says what one
  cycle hands to `setImages`. The class `BackgroundImageSizeHook` holds `images`
  (`None` for `null`) and `refPresent` (`ref.current` is set). `Callback` is one
  cycle, written as the hook's three guarded type tests, and `Use` is one
  render followed by its effect.
- `Wrappers` (`wrappers.dfy`) holds the `Option` datatype.

The asynchronous parts are collapsed into one method call. `refAfterLoad` is
whether `ref.current` is set once the awaited loads finish. `style` is the
value `getComputedStyle(ref.current).backgroundImage` would return, and
`Callback` reports whether it read that value.

The hook's argument is modelled by its JavaScript type in `Input`:
`UrlList`, `Url`, `Flag`, or `OtherValue` (`null`, numbers, non-array objects).
An omitted argument is `Flag(false)` through the default parameter.

Strings are sequences of Dafny characters. JavaScript regex matching without
the `u` flag works on UTF-16 code units. For this pattern the two give the same
matches, because every literal in it is in the Basic Multilingual Plane.

## Model

| member | source | states |
|---|---|---|
| `CssUrl.LazyBody` | src/index.js:3 | the lazy `(.+?)` stops at the first position where the closer (`\1\)`) matches, provided no line terminator came before it; it fails exactly when no such position exists |
| `CssUrl.LeastBodyEnd` | src/index.js:3 | the end of the shortest non-empty body that has no line terminator and is followed by the closer, or `None` when no body is followed by it |
| `CssUrl.QuotedBodyEnd` | src/index.js:3 | the quoted alternative (group 1 is a `'`, `"` or backtick, and the same quote then `)` closes) matches with its shortest body, or cannot match at all |
| `CssUrl.PlainBodyEnd` | src/index.js:3 | the alternative with group 1 skipped (`\1` is empty, the body may start with a quote) matches with its shortest body, or cannot match at all |
| `CssUrl.MatchAt` | src/index.js:3 | a match at a position starts there, ends inside the string, and has a non-empty capture group 2 |
| `CssUrl.MatchAtIsLeastMatch` | src/index.js:3 | the quoted alternative is taken whenever it can match at all, with its shortest body; otherwise the unquoted one is taken, with its shortest body; otherwise there is no match. The matched text is `url(` + quote + body + quote + `)` |
| `CssUrl.FirstMatch` | src/index.js:50 | `exec` from an index finds the leftmost match at or after it; no match starts before it; `None` means no match starts anywhere after the index |
| `CssUrl.Scan` | src/index.js:50 | the global search returns real matches, in left-to-right order, that never overlap and all start at or after the given index |
| `CssUrl.ScanMissesNoneOutside` | src/index.js:50 | no match is skipped before the first match or after the last one; when there are none, the string holds no match at all |
| `CssUrl.ScanMissesNoneBetween` | src/index.js:50 | no match is skipped between two consecutive matches |
| `CssUrl.RematchAt` | src/index.js:50-54 | running the non-global pattern again on a whole match's text finds the same match at position 0, covering that whole text, with the same captures |
| `CssUrl.ReplaceMatchTextIsBody` | src/index.js:54 | `match.replace(urlRgx, '$2')` on a whole match gives exactly that match's capture group 2 |
| `CssUrl.ExtractUrlsAreBodies` | src/index.js:48-55 | the extracted URLs are the matches' bodies, one per match and in order; the result is `null` exactly when nothing matches |
| `CssUrl.UnquotedUrlExtracts` | src/index.js:3 | `url(u)` yields `[u]` when `u` is non-empty, does not start with a quote, and holds no `)` and no line terminator |
| `CssUrl.QuotedUrlExtracts` | src/index.js:3 | `url(` q u q `)` yields `[u]` for each of the three quotes q: the quotes are stripped, provided `u` is non-empty, holds no line terminator and no q followed by `)` |
| `CssUrl.TestElementUrlExtracts` | __tests__/hook.js:8 | the test element's `url(https://test/file.png)` yields exactly `["https://test/file.png"]` |
| `ImageLoad.Load` | src/index.js:4-15 | the descriptor's `src` is the requested URL, not a redirected one, and its width and height are the loaded image's natural size |
| `ImageLoad.LoadAll` | src/index.js:30-31 | the loads of a list give one descriptor per URL, in the order of the URLs, whatever order they complete in |
| `ImageLoad.Shape` | src/index.js:59 | exactly one image gives a bare descriptor, more give the list; the descriptors are kept in order |
| `ImageLoad.LoadAllSources` | src/index.js:30-31 | the sources of the loaded list are exactly the requested URLs, and each size is the one loaded for its URL |
| `Hook.Published` | src/index.js:28-63 | a cycle publishes only when the ref is present at publish time. A boolean cycle with the ref absent at the start publishes nothing, and any other argument type publishes nothing. A list publishes a list of the same URLs in the same order, even for one URL. A string publishes a bare descriptor of that URL. A boolean publishes the extracted URLs, bare exactly when there is one match, and nothing when nothing matches. Every size is the loader's size for that descriptor's URL |
| `Hook.ManualCycleIsAutoCycle` | src/index.js:46-63 | the callback returned for `true` runs the same cycle as the automatic boolean mode |
| `Hook.TestElementPublishesOneDescriptor` | __tests__/hook.js:48-51 | with the test element and 200 by 200 images, the automatic mode publishes `{ width: 200, height: 200, src: 'https://test/file.png' }` |
| `Hook.UrlListPublishesInOrder` | __tests__/hook.js:80-86 | `['./foo/bar', './one/two']` publishes the two descriptors in that order |
| `Hook.BackgroundImageSizeHook.constructor` | src/index.js:26-27 | the state starts as `null` |
| `Hook.BackgroundImageSizeHook.SetRef` | src/index.js:26 | attaching or detaching the element changes only the ref's presence |
| `Hook.BackgroundImageSizeHook.Callback` | src/index.js:28-64 | one cycle sets `images` to what `Published` gives and otherwise leaves it unchanged. It writes `images` only when the ref is present. It reads the style only in boolean mode with the ref present beforehand. The ref can change only across an await |
| `Hook.BackgroundImageSizeHook.Use` | src/index.js:66-72 | the render returns the current `images` in a 2-element result, or in a 3-element result with the callback when the argument is `true`. The effect runs one cycle for every argument except `true`; for `true`, state is left untouched |

## Left out

- React's scheduling (`useRef`, `useState`, `useCallback`, `useEffect`
  timing, re-renders) is not modelled. One cycle is one method call, and `Use`
  is one render followed at once by its effect.
- `new Image()`, `onload` and `Promise.all` are replaced by a total loader. `getImagePromise`
  attaches no `onerror`, so a failed load leaves the cycle pending
  forever. The model has no such stall: every load completes.
- `window.getComputedStyle` is not modelled; its `background-image` value is
  the `style` parameter.
- Cross-cycle races are not modelled. A stale cycle that publishes after a
  newer one is concurrency, and the hook promises nothing about it.
- Only this one fixed pattern is modelled, not a general regular-expression
  engine. Characters are Dafny characters, not UTF-16 code units.
- An empty argument list publishes an empty list, because `Promise.all([])`
  resolves with `[]`. `Published` keeps this behaviour. `Shape` is only called
  with at least one image, since a non-null global match has at least one
  element.
