# Video backgrounds for image grids — a Dafny model

`custom.js` runs once the page has loaded. It reads a mappings text of the form
`label|value,label|value,...` from the page, matches every eligible `<img>` against its
labels by alt text, and replaces a matched image with a background video: a Vimeo
iframe for a numeric id, or a Plyr player for an `http(s)://` URL. One shared play
order decides which video autoplays: the first one created on the page. Every other
video waits for the pointer. Each video container moves between the CSS classes
`video-loading`, `has-video` and `loaded`, driven by player events, load timeouts and
the hover/touch controller.

This project models that logic in Dafny 4.11 and proves properties of it. The modules
are:

- `Text`: the JavaScript string built-ins the script relies on: `trim`, ASCII
  `toLowerCase`, `includes`, `split` on one character, and `split(/\s+/)`.
- `VideoType`: `detectVideoType`.
- `Mappings`: the mapping-text parser, and the plain object `{}` it fills. The object
  is modelled with JavaScript's own key order: array-index keys first, in ascending
  numeric order, then the other keys in insertion order. The key `__proto__` is never
  stored.
- `Matcher`: the `find` callback (`hasKeyword || hasAltWord`) and `find` itself.
- `Pipeline`: eligibility, the matched key, `createVideoBackground`, and the
  `images.forEach` walk with its play-order bookkeeping. The walk is proved equal to
  a reference definition (`Replay`) that applies one image's plan after another.
- `Page`: the scenarios, reduced to a list of contexts. Each context has a name, the
  text of its mappings element if one was found, and its images. All contexts thread
  one play order.
- `PlayOrder`: `indexOf` and the rule by which a paused Plyr video hides.
- `Hover`: the `addVimeoControls` controller, as a step function over Enter, Leave,
  Touch and HideFires events. A container may carry several controllers.
- `Vimeo` and `Plyr`: the class flags of a container, as step functions over that
  player's events, with an invariant that every step preserves.

Timers and player callbacks are events that may arrive in any order. The model
keeps the code's behaviour in the places where it is easy to misread:

- A segment is split on every `|`, and only pieces 0 and 1 are used. This differs
  from splitting on the first `|` when a segment has three pieces. The emptiness test
  sees the pieces before trimming.
- The Plyr backup timeout only removes `video-loading`. It never adds `has-video`, so
  its branch that would show the first video cannot run (`Plyr.TimeoutOnlyStopsLoading`).
- A `mouseenter` cancels only the hide timer held in the controller's one handle, not
  every pending hide. Leave, Leave, Enter therefore still hides the video.
- `if (matchedKey)` treats the empty key as false. An empty key, which a segment such
  as ` |5` produces, matches every alt text. When `find` reaches it, it stops the
  search and the image gets no video.

## Model

| member | source | states |
|---|---|---|
| Text.Trim | custom.js:7 | `trim` drops exactly the leading and trailing whitespace. The result has no whitespace at either end. |
| Text.TrimIdempotent | custom.js:7 | Trimming twice is the same as trimming once. |
| Text.TrimFixed | custom.js:7 | A string with no whitespace at either end is its own trim. |
| Text.IncludesIsSlice | custom.js:465-472 | `includes` holds exactly when the needle occurs as a contiguous slice of the haystack. |
| Text.IncludesEmpty | custom.js:465-472 | Every string includes the empty string. |
| Text.SplitShape | custom.js:374-375 | The pieces of `split(d)` contain no `d`, and joining them with `d` gives back the text. |
| Text.SplitJoin | custom.js:374-375 | `split(d)` undoes joining with `d` whenever no piece contains `d`. |
| Text.SplitFree | custom.js:374-375 | A text without the separator splits into itself alone. |
| Text.SplitPrefix | custom.js:374-375 | A separator-free word followed by the separator is the first piece, and the rest splits on its own. |
| Text.SplitWsNoSpace | custom.js:461-462 | No piece of `split(/\s+/)` contains whitespace. |
| Text.SplitWsInner | custom.js:461-462 | Only the first and the last piece of `split(/\s+/)` can be empty. |
| Text.SplitWsOne | custom.js:461-462 | `split(/\s+/)` gives one piece exactly when the text contains no whitespace. |
| Text.SplitWsFirst | custom.js:461-462 | The first piece is empty exactly when the text is empty or starts with whitespace. |
| Text.SplitWsLast | custom.js:461-462 | The last piece is empty exactly when the text is empty or ends with whitespace. |
| Text.SplitWsJoin | custom.js:461-462 | Splitting on whitespace undoes joining with single spaces, for whitespace-free pieces whose inner pieces are non-empty. |
| Text.SplitWsSeparators | custom.js:461-462 | Between consecutive words of `split(/\s+/)` there is one non-empty run of whitespace. Putting those runs back between the words gives the text, for every text. |
| VideoType.AllDigits | custom.js:17 | The scan is true exactly when every character is an ASCII digit. |
| VideoType.DetectMeaning | custom.js:6-24 | The result is `url` exactly when the trimmed value starts with `https://` or `http://`, ignoring case. It is `vimeo` exactly when the trimmed value is a non-empty run of digits. Otherwise it is `unknown`. The URL test wins. |
| VideoType.LowerPrefix | custom.js:11 | Testing `startsWith` on the lower-cased text is the same as comparing the prefix ignoring case. |
| VideoType.DetectIgnoresSurroundingSpace | custom.js:7 | Surrounding whitespace never changes the classification. |
| VideoType.DetectDigitsExample | custom.js:17-19 | `"123"` is a Vimeo id. |
| VideoType.DetectPaddedDigitsExample | custom.js:7-19 | `" 42 "` is a Vimeo id, because the value is trimmed first. |
| VideoType.DetectUrlScheme | custom.js:11-14 | Any value that starts with `https://` or `http://`, in any letter case, is a URL, whatever follows the scheme. |
| VideoType.DetectUrlExamples | custom.js:11-14 | `https://…` and `HTTP://…` are URLs, whatever follows the scheme, including nothing or trailing whitespace. |
| VideoType.DetectWordUnknown | custom.js:11-23 | A trimmed value that contains a non-digit is never a Vimeo id. It is unknown exactly when it does not start with either scheme. |
| VideoType.DetectWordExamples | custom.js:16-23 | `"abc"` and `"12a"` are unknown. |
| VideoType.DetectOtherExamples | custom.js:16-23 | The empty string and `ftp://x` are unknown. |
| Mappings.Find | custom.js:481 | A read finds a value exactly when the key is listed, and the value belongs to an entry with that key. |
| Mappings.UpsertKeys | custom.js:377 | Assigning an existing non-index key keeps the key order. A new key goes last. |
| Mappings.UpsertFind | custom.js:377 | After an assignment, the key reads the new value and every other key reads what it read before. |
| Mappings.InsertIndexFind | custom.js:377 | The same read-after-write rule holds for the array-index run. |
| Mappings.InsertIndexRun | custom.js:377 | Assigning an index key keeps the index run distinct and in ascending numeric order. |
| Mappings.PutGet | custom.js:377 | After `t[k] = v`, `k` reads `v` unless `k` is `__proto__`. Every other key reads what it read before. |
| Mappings.PutKeys | custom.js:377 | A listed key keeps its place. A new non-index key is listed last. `__proto__` changes nothing. Only the run the key belongs to changes. |
| Mappings.GetListed | custom.js:481 | A key is readable exactly when `Object.keys` lists it. |
| Mappings.SplitAtBar | custom.js:375 | Piece 0 of `split('\|')` is the text before the first bar. There is a piece 1 exactly when a bar exists. The remaining pieces are the split of what follows the bar. |
| Mappings.SegmentEntry | custom.js:375-378 | A segment contributes exactly when the texts before the first bar and between the first and second bar are both non-empty. The entry is the trimmed, lower-cased label and the trimmed value. |
| Mappings.SegmentWithValue | custom.js:375-378 | `label\|value` gives the trimmed, lower-cased label and the trimmed value. |
| Mappings.SegmentWithExtraPieces | custom.js:375-378 | Everything after a second bar is ignored. |
| Mappings.SegmentWithoutBar | custom.js:375-376 | A segment without a bar contributes nothing. |
| Mappings.SegmentEmptyLabel | custom.js:376 | `\|value` contributes nothing. |
| Mappings.SegmentEmptyValue | custom.js:376 | `label\|` and `label\|\|…` contribute nothing. |
| Mappings.SegmentBlankLabel | custom.js:376-377 | A label of any non-empty run of whitespace passes the emptiness test, which runs before trimming, and gives the empty key with the trimmed value. |
| Mappings.ParseSegmentsGet | custom.js:373-379 | Each key of the parsed table reads the value of the last segment that names it. `__proto__` is never stored. |
| Mappings.ParseSegmentsKeys | custom.js:373-379 | The parsed table lists exactly the contributed keys, except `__proto__`. |
| Mappings.ParseSegmentsNameOrder | custom.js:373-379 | Non-index keys are listed in the order of their first appearance in the text. |
| Mappings.ParseAppend | custom.js:374 | Parsing `text,segment` folds the segment into the table parsed from `text`. |
| Mappings.LaterDuplicateWins | custom.js:377 | A later duplicate overwrites the value and leaves the key order unchanged. |
| Mappings.ParseEmpty | custom.js:373-379 | Empty text gives the empty table. |
| Mappings.ParseSingle | custom.js:374 | A text without commas is a single segment. |
| Mappings.PairEntry | custom.js:375-377 | A plain `label\|value` pair contributes exactly that entry. |
| Mappings.ParseOnePair | custom.js:373-379 | One plain pair gives a one-key table. |
| Mappings.ParseAppendNewPair | custom.js:373-379 | Appending a pair with a new plain label lists the label last, gives it the value, and leaves every other key alone. |
| Mappings.ParseTwoPairs | custom.js:373-379 | `a\|1,b\|2` lists `a` then `b`, with their values. |
| Mappings.ParseDuplicatePair | custom.js:377 | `a\|1,a\|2` lists `a` once, with value `2`. |
| Mappings.ParseAppendIndexPair | custom.js:373-379 | Appending an integer-like label to a table without index keys lists that label first. |
| Mappings.ParseIndexLabelFirst | custom.js:373-379 | `b\|1,2\|x` lists `2` before `b`. |
| Matcher.FirstMatch | custom.js:457-478 | `find` returns the position of the first matching key, and no earlier key matches. If it returns nothing, no key matches. |
| Matcher.WordsOccurInText | custom.js:461-466 | Every whitespace-separated word occurs in the text it came from. |
| Matcher.KeywordTestReducesToIncludes | custom.js:465-467 | `hasKeyword` holds exactly when some key word occurs in the alt text. The test of the alt words themselves never decides anything. |
| Matcher.PaddedAltMatchesEveryKey | custom.js:461-477 | An alt text with leading or trailing whitespace matches every key. |
| Matcher.EmptyKeyMatchesEveryAlt | custom.js:462-477 | The empty key matches every alt text. |
| Matcher.FirstMatchStopsAt | custom.js:457-478 | `find` never looks past a matching key. |
| Matcher.FirstMatchFindsFirst | custom.js:457-478 | `find` returns position p exactly when the key at p matches and no earlier key does. |
| Matcher.OneWordMatch | custom.js:457-478 | For a one-word key and a one-word alt text, the test is containment in either direction. |
| Matcher.KeyWordInAltMatches | custom.js:465-467 | A one-word key found inside the alt text matches ("photo" in "team photo"). |
| Matcher.AltWordInKeyMatches | custom.js:470-472 | A one-word alt text found inside the key matches ("team" in "team event"). |
| Pipeline.MatchedKeyMeaning | custom.js:457-486 | A matched key is a non-empty listed key that matches the alt text. If the first matching key is non-empty, it is the matched key. There is no matched key exactly when every non-empty matching key has an earlier matching key. |
| Pipeline.EmptyKeyStopsSearch | custom.js:457-486 | An empty key with no matching key before it leaves the image without a video. |
| Pipeline.PlanMeaning | custom.js:433-486 | An image gets a builder call exactly when three things hold: it is eligible; the first key that matches its alt text is non-empty; and that key's value is a Vimeo id or a URL. |
| Pipeline.PlanJob | custom.js:480-486 | The builder call for an image carries the value of the first matching key and the image's alt text. Its player follows the value's type. |
| Pipeline.CreateVideoBackground | custom.js:340-352 | An unknown value builds nothing and leaves the play order alone. Otherwise the player follows the value's type, the call is first exactly when the play order was empty, and the alt text is appended. |
| Pipeline.HandleImage | custom.js:433-486 | The `forEach` callback builds exactly when the image's plan says so. It builds with the plan's player, value and alt text, and appends that alt text. |
| Pipeline.WalkImages | custom.js:433-487 | The `forEach` walk equals the reference walk over the images' plans. |
| Pipeline.ProcessImages | custom.js:367-372 | Empty mappings text examines no image and builds nothing. Otherwise the text is parsed and the images are walked. |
| Pipeline.ReplayOrder | custom.js:46-47 | After a walk, the play order is the previous order followed by the alt texts of the builds, one per build. |
| Pipeline.ReplayFirst | custom.js:139-141 | A build is first exactly when it is the walk's first build and the walk started from an empty play order. |
| Pipeline.ReplayBuilds | custom.js:433-483 | Each build carries exactly the job of its image. Builds follow the image list order. |
| Pipeline.ReplayComplete | custom.js:433-483 | Every image with a job gets a build. |
| Page.PageReplay | custom.js:490-543 | There is one build list per context. |
| Page.PageOrderLength | custom.js:4 | The play order holds exactly one alt text per builder call on the page. |
| Page.FirstOnceStep | custom.js:46-47 | One more context keeps the first-video rule when its walk starts from the order the earlier contexts left. |
| Page.PageFirst | custom.js:46-47 | On a page, a build is the first video exactly when it is its context's first build and no earlier context built anything. At most one video autoplays. |
| Page.RunPage | custom.js:490-543 | Processing the contexts in order, with their trimmed mappings texts and one shared play order, equals the reference page run. |
| PlayOrder.IndexOf | custom.js:217 | `indexOf` is -1 exactly when the alt text is absent. Otherwise it is the position of its first occurrence. |
| PlayOrder.HidesOnPause | custom.js:214-220 | A pause hides exactly when the alt text is in the play order and is not the first entry. |
| PlayOrder.IndexOfStable | custom.js:217 | Appending to the play order never changes the answer for an alt text already in it. |
| PlayOrder.PauseAfterWalk | custom.js:214-220 | A pause never hides the first video, however the order grows later. Any other video hides exactly when its alt text differs from the first video's. |
| Hover.Init | custom.js:82-83 | A container starts with no controller and no pending hide. |
| Hover.Held | custom.js:83 | The held ids are exactly the ids in the controllers' handles. |
| Hover.Range | custom.js:93 | The ids handed out by one leave are exactly the next ones. |
| Hover.Step | custom.js:85-108 | Every event keeps the timer ids consistent. Only a leave rewrites the handles. |
| Hover.RunValid | custom.js:85-108 | Any event sequence keeps the timer ids consistent and the number of controllers fixed. |
| Hover.LeaveOne | custom.js:91-96 | With one controller, a leave schedules one hide and keeps its id in the handle. |
| Hover.EnterOne | custom.js:85-89 | With one controller, an enter clears the id in the handle and shows the video. |
| Hover.LeaveLeaveEnterStillHides | custom.js:85-96 | After Leave, Leave, Enter the first hide is still pending, and when it fires it removes `loaded`. |
| Hover.LeaveEnterRestores | custom.js:85-96 | A leave followed by an enter leaves the pending hides as they were, with the video shown. |
| Hover.TouchToggles | custom.js:99-108 | With one controller, a touch flips `loaded` and clears no timer. Two touches undo each other. |
| Hover.TouchWithTwoControllers | custom.js:99-108 | With two controllers, a touch toggles twice and has no effect. |
| Hover.StaleHide | custom.js:93-95 | A hide that was cleared, or has already fired, does nothing. |
| Hover.ShownUntilLeaveOrTouch | custom.js:85-109 | Without a leave or a touch, no hide becomes pending, and the video ends shown exactly when it started shown or an enter reached a controller. |
| Vimeo.Init | custom.js:27-28 | A new container is loading and satisfies the invariant. |
| Vimeo.Reveal | custom.js:54-64 | The delayed ready step shows the first video, and gives any other video one more controller. |
| Vimeo.Step | custom.js:49-79 | Every event keeps the invariant. The invariant covers four facts: exactly one of `video-loading` and `has-video` is set; nothing is shown or attached while loading; the first video never has a controller; and `loaded` implies `has-video`. |
| Vimeo.RunInv | custom.js:49-79 | Every reachable container satisfies the invariant. |
| Vimeo.NoPointerNoShow | custom.js:46-79 | A video other than the first is never shown by its load, delay or timeout. Only a pointer event on its controller sets `loaded`. |
| Vimeo.TimeoutWhileLoading | custom.js:67-79 | A timeout while loading gives `has-video`. It shows the first video, and gives any other video exactly one controller. |
| Vimeo.TimeoutAfterLoad | custom.js:67-68 | Once the iframe has loaded, the timeout changes nothing. |
| Vimeo.PointerIgnoredWithoutControls | custom.js:55-63 | The first video, and a video still loading, ignore the pointer. |
| Vimeo.LateLoadDoublesControls | custom.js:49-79 | An iframe that loads after the timeout gets a second controller, and a touch then has no effect. |
| Vimeo.FirstShownAfterLoad | custom.js:49-58 | The first video is shown after its load delay and never gets a controller. |
| Vimeo.LaterWaitsForPointer | custom.js:59-63 | Any other video is not shown by loading. It gets one controller and waits. |
| Plyr.Init | custom.js:114-115 | A new container is loading, without `has-video` or `loaded`. |
| Plyr.Step | custom.js:187-248 | No event sets `has-video` while `video-loading` is still set. Only the first video attempts autoplay, and only the others get controls. |
| Plyr.RunInv | custom.js:187-248 | Every reachable container satisfies that invariant. |
| Plyr.ReadyAttachesControls | custom.js:187-204 | A video other than the first has controls after its `ready` event, whatever events follow. |
| Plyr.TimeoutOnlyStopsLoading | custom.js:238-248 | On a reachable container, the backup timeout only removes `video-loading`. |
| Plyr.TimeoutNeverShows | custom.js:243-246 | The timeout never shows or un-shows a first video, whatever happened before. |
| Plyr.PauseKeepsFirstAlt | custom.js:214-220 | A pause leaves a video whose alt text is the first in the play order unchanged. |
| Plyr.PauseHidesOthers | custom.js:214-220 | A pause hides a video whose alt text is in the play order but not first. |

## Left out

- DOM construction (custom.js:27-43, 114-137) is left out: wrapping the image, and creating the iframe, `<video>` and `<source>`. It has no logic beyond the class flags.
- The Plyr library and the media element are not modelled. Their events (`ready`, `playing`, `pause`, `error`) and the settling of the first video's `play()` promise are events in any order. `ended` (custom.js:222-225) only restarts playback and moves no flag.
- `Plyr.Step` lets events arrive after the constructor threw, which the real player would not send. The invariant still holds for those extra traces.
- `addPlyrControls` and `addVideoControls` (custom.js:251-338) are left out. They depend on the media element's `paused` state and on play/pause promises. So is the fallback without Plyr (custom.js:144-171): its outcome hangs on the same promises.
- Scenario selection and the mappings lookup (custom.js:354-365, 490-543) are left out, including the `.w-dyn-item` content-area fallback (custom.js:403-414). They are DOM queries. A page is given as its list of contexts, each with a name, an optional mappings text and an image list, and a project-page image carries an "inside `.image-grid`" flag.
- Timers and `DOMContentLoaded` are replaced by explicit events. Delays and their relative order are not modelled.
- `console.log` output is left out.
- `toLowerCase` is modelled over ASCII letters only. Whitespace is JavaScript's WhiteSpace and LineTerminator set. No Unicode case mapping is modelled.
