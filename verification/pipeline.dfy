/** Image eligibility, matching and play-order bookkeeping:
    `processImagesWithVideoMappings` (custom.js:367-487), `createVideoBackground`
    (custom.js:340-352) and the `videoPlayOrder` updates of the two builders
    (custom.js:4, 46-47, 139-141). The DOM work of the builders is not modelled;
    a builder call is recorded as a `Build`. */
module Pipeline {
  import opened Wrappers
  import opened Text
  import VideoType
  import opened Mappings
  import opened Matcher

  /** What the script reads from an `<img>`: its `alt` attribute (absent or
      present), whether it has class `related-thumb`, and whether it lies
      inside an `.image-grid`. */
  datatype Image = Image(alt: Option<string>, relatedThumb: bool, inImageGrid: bool)

  datatype Player = VimeoPlayer | PlyrPlayer

  /** One call of `createVimeoBackground` or `createPlyrBackground`. */
  datatype Build = Build(image: nat, player: Player, value: string, alt: string, isFirst: bool)

  /** The context name of the single-project-page scenario. */
  const ProjectPage: string := "Project Page"

  /** Images the loop looks at: not a related thumbnail, inside an image grid on
      the project page, and with a non-empty alt text. */
  predicate Eligible(img: Image, contextName: string) {
    && !img.relatedThumb
    && (contextName != ProjectPage || img.inImageGrid)
    && img.alt.Some?
    && |img.alt.value| > 0
  }

  /** The key `find` returns for this alt text, if it is truthy: an empty key
      that `find` stops at is falsy and ends in the no-match branch. */
  function MatchedKey(t: Table, alt: string): Option<string>
  {
    match FirstMatch(Keys(t), Lower(alt))
    case None => None
    case Some(p) => if Keys(t)[p] == [] then None else Some(Keys(t)[p])
  }

  /** A matched key is a non-empty key of the table that matches the alt
      text. When the first matching key is non-empty it is the matched key;
      when it is the empty key, or no key matches, there is none. */
  lemma MatchedKeyMeaning(t: Table, alt: string)
    ensures MatchedKey(t, alt).Some? ==>
      && MatchedKey(t, alt).value in Keys(t)
      && MatchedKey(t, alt).value != []
      && KeyMatches(MatchedKey(t, alt).value, Lower(alt))
    ensures forall p: nat :: FirstMatchAt(Keys(t), Lower(alt), p) ==>
      MatchedKey(t, alt) == if Keys(t)[p] == [] then None else Some(Keys(t)[p])
    ensures MatchedKey(t, alt).None? <==>
      forall p :: 0 <= p < |Keys(t)| && Keys(t)[p] != [] && KeyMatches(Keys(t)[p], Lower(alt)) ==>
        exists j :: 0 <= j < p && KeyMatches(Keys(t)[j], Lower(alt))
  {
    var keys, altLower := Keys(t), Lower(alt);
    forall p: nat | FirstMatchAt(keys, altLower, p)
      ensures MatchedKey(t, alt) == if keys[p] == [] then None else Some(keys[p])
    {
      FirstMatchFindsFirst(keys, altLower, p);
    }
    match FirstMatch(keys, altLower)
    case None =>
    case Some(p0) =>
      FirstMatchFindsFirst(keys, altLower, p0);
      if keys[p0] == [] {
        forall p | 0 <= p < |keys| && keys[p] != [] && KeyMatches(keys[p], altLower)
          ensures exists j :: 0 <= j < p && KeyMatches(keys[j], altLower)
        {
          assert p0 < p;
        }
      } else {
        assert !exists j :: 0 <= j < p0 && KeyMatches(keys[j], altLower);
      }
  }

  /** An empty key listed before every key that matches stops the search: the
      image gets no video, whatever keys follow. */
  lemma EmptyKeyStopsSearch(t: Table, alt: string, p: nat)
    requires p < |Keys(t)| && Keys(t)[p] == []
    requires forall j :: 0 <= j < p ==> !KeyMatches(Keys(t)[j], Lower(alt))
    ensures MatchedKey(t, alt).None?
  {
    EmptyKeyMatchesEveryAlt(Lower(alt));
    assert FirstMatchAt(Keys(t), Lower(alt), p);
    MatchedKeyMeaning(t, alt);
  }

  /** What a builder call for one image is given, apart from the play order:
      the player, the mapping value and the image's alt text. */
  datatype Job = Job(player: Player, value: string, alt: string)

  /** What happens to one image independently of play order: the builder it
      reaches, if any. */
  function Plan(t: Table, img: Image, contextName: string): Option<Job>
    requires Valid(t)
  {
    if !Eligible(img, contextName) then None
    else
      match MatchedKey(t, img.alt.value)
      case None => None
      case Some(key) =>
        MatchedKeyMeaning(t, img.alt.value);
        GetListed(t, key);
        var value := Get(t, key).value;
        match VideoType.Detect(value)
        case Vimeo => Some(Job(VimeoPlayer, value, img.alt.value))
        case Url => Some(Job(PlyrPlayer, value, img.alt.value))
        case Unknown => None
  }

  /** An image gets a player exactly when it is eligible, the first key that
      matches its alt text is not the empty key, and that key's value is a
      Vimeo id or a URL. */
  lemma PlanMeaning(t: Table, img: Image, contextName: string)
    requires Valid(t)
    ensures Plan(t, img, contextName).Some? <==>
      && Eligible(img, contextName)
      && exists p: nat :: (
        && FirstMatchAt(Keys(t), Lower(img.alt.value), p)
        && Keys(t)[p] != []
        && Get(t, Keys(t)[p]).Some?
        && VideoType.Detect(Get(t, Keys(t)[p]).value) != VideoType.Unknown)
  {
    if Eligible(img, contextName) {
      var alt := img.alt.value;
      var keys, altLower := Keys(t), Lower(alt);
      MatchedKeyMeaning(t, alt);
      var fm := FirstMatch(keys, altLower);
      if fm.Some? {
        var p0 := fm.value;
        FirstMatchFindsFirst(keys, altLower, p0);
        GetListed(t, keys[p0]);
        assert p0 < |keys| && keys[p0] in Keys(t);
      }
    }
  }

  /** The job for an image carries the value of the first key that matches
      its alt text and the alt text itself, and its player follows the type of
      that value. */
  lemma PlanJob(t: Table, img: Image, contextName: string, p: nat)
    requires Valid(t)
    requires Eligible(img, contextName) && FirstMatchAt(Keys(t), Lower(img.alt.value), p)
    requires Plan(t, img, contextName).Some?
    ensures Get(t, Keys(t)[p]) == Some(Plan(t, img, contextName).value.value)
    ensures img.alt == Some(Plan(t, img, contextName).value.alt)
    ensures Plan(t, img, contextName).value.player == VimeoPlayer <==>
      VideoType.Detect(Plan(t, img, contextName).value.value) == VideoType.Vimeo
    ensures Plan(t, img, contextName).value.player == PlyrPlayer <==>
      VideoType.Detect(Plan(t, img, contextName).value.value) == VideoType.Url
  {
    MatchedKeyMeaning(t, img.alt.value);
    GetListed(t, Keys(t)[p]);
  }

  function AltsOf(builds: seq<Build>): seq<string>
  {
    seq(|builds|, j requires 0 <= j < |builds| => builds[j].alt)
  }

  /** `createVideoBackground`: an unknown value builds nothing; otherwise the
      builder notes whether the play order was still empty and appends the alt
      text before any load event can run. */
  method CreateVideoBackground(image: nat, value: string, alt: string, order: seq<string>)
    returns (order': seq<string>, built: Option<Build>)
    ensures VideoType.Detect(value) == VideoType.Unknown <==> built.None?
    ensures built.None? ==> order' == order
    ensures built.Some? ==> order' == order + [alt]
    ensures built.Some? ==> built.value.image == image && built.value.alt == alt && built.value.value == value
    ensures built.Some? ==> (built.value.isFirst <==> |order| == 0)
    ensures built.Some? ==> (built.value.player == VimeoPlayer <==> VideoType.Detect(value) == VideoType.Vimeo)
  {
    var videoType := VideoType.Detect(value);
    if videoType == VideoType.Unknown {
      return order, None;
    }
    var player := if videoType == VideoType.Vimeo then VimeoPlayer else PlyrPlayer;
    var isFirstVideo := |order| == 0;
    order' := order + [alt];
    built := Some(Build(image, player, value, alt, isFirstVideo));
  }

  /** The job of every image of a list, in list order. */
  function Plans(t: Table, images: seq<Image>, contextName: string): seq<Option<Job>>
    requires Valid(t)
  {
    seq(|images|, i requires 0 <= i < |images| => Plan(t, images[i], contextName))
  }

  /** The effect of image number `n` on the play order and the list of
      builder calls so far: nothing for an image without a job; otherwise one
      builder call, first exactly when the play order is still empty, and the
      alt text appended to the play order. */
  function Apply(state: (seq<string>, seq<Build>), n: nat, job: Option<Job>): (seq<string>, seq<Build>)
  {
    match job
    case None => state
    case Some(j) => (state.0 + [j.alt], state.1 + [Build(n, j.player, j.value, j.alt, |state.0| == 0)])
  }

  /** The reference walk: the jobs applied one after the other, in list order,
      starting from the play order `order`. */
  function Replay(jobs: seq<Option<Job>>, order: seq<string>): (r: (seq<string>, seq<Build>))
    ensures |r.1| <= |jobs|
    decreases |jobs|
  {
    if |jobs| == 0 then (order, [])
    else Apply(Replay(jobs[..|jobs| - 1], order), |jobs| - 1, jobs[|jobs| - 1])
  }

  /** The play order after a walk is the one before it followed by the alt
      texts of the builds, in build order. */
  lemma {:induction false} ReplayOrder(jobs: seq<Option<Job>>, order: seq<string>)
    ensures Replay(jobs, order).0 == order + AltsOf(Replay(jobs, order).1)
    decreases |jobs|
  {
    if |jobs| > 0 {
      var prev := Replay(jobs[..|jobs| - 1], order);
      ReplayOrder(jobs[..|jobs| - 1], order);
      if jobs[|jobs| - 1].Some? {
        assert AltsOf(prev.1 + [Build(|jobs| - 1, jobs[|jobs| - 1].value.player, jobs[|jobs| - 1].value.value,
          jobs[|jobs| - 1].value.alt, |prev.0| == 0)]) == AltsOf(prev.1) + [jobs[|jobs| - 1].value.alt];
      }
    }
  }

  /** Only the first build of a walk that starts from an empty play order is
      the first video; a walk that starts after other videos has none. */
  lemma {:induction false} ReplayFirst(jobs: seq<Option<Job>>, order: seq<string>)
    ensures forall j :: 0 <= j < |Replay(jobs, order).1| ==>
      (Replay(jobs, order).1[j].isFirst <==> |order| == 0 && j == 0)
    decreases |jobs|
  {
    if |jobs| > 0 {
      var prev := Replay(jobs[..|jobs| - 1], order);
      ReplayFirst(jobs[..|jobs| - 1], order);
      ReplayOrder(jobs[..|jobs| - 1], order);
      assert |prev.0| == |order| + |prev.1|;
    }
  }

  /** Every build comes from the job of an earlier-listed image than the next
      build's, and carries exactly that job. */
  lemma {:induction false} ReplayBuilds(jobs: seq<Option<Job>>, order: seq<string>)
    ensures forall j :: 0 <= j < |Replay(jobs, order).1| ==>
      var b := Replay(jobs, order).1[j];
      b.image < |jobs| && jobs[b.image] == Some(Job(b.player, b.value, b.alt))
    ensures forall j, k :: 0 <= j < k < |Replay(jobs, order).1| ==>
      Replay(jobs, order).1[j].image < Replay(jobs, order).1[k].image
    decreases |jobs|
  {
    if |jobs| > 0 {
      ReplayBuilds(jobs[..|jobs| - 1], order);
    }
  }

  /** Some build in `builds` is for image number `i`. */
  predicate BuiltFor(builds: seq<Build>, i: nat) {
    exists j :: 0 <= j < |builds| && builds[j].image == i
  }

  /** Every image with a job gets a build. */
  lemma {:induction false} ReplayComplete(jobs: seq<Option<Job>>, order: seq<string>)
    ensures forall i :: 0 <= i < |jobs| && jobs[i].Some? ==> BuiltFor(Replay(jobs, order).1, i)
    decreases |jobs|
  {
    if |jobs| > 0 {
      var prev := Replay(jobs[..|jobs| - 1], order);
      ReplayComplete(jobs[..|jobs| - 1], order);
      var r := Replay(jobs, order);
      assert r == Apply(prev, |jobs| - 1, jobs[|jobs| - 1]);
      assert |prev.1| <= |r.1| && r.1[..|prev.1|] == prev.1;
      forall i | 0 <= i < |jobs| && jobs[i].Some?
        ensures BuiltFor(r.1, i)
      {
        if i == |jobs| - 1 {
          assert r.1[|r.1| - 1].image == i;
        } else {
          assert jobs[..|jobs| - 1][i] == jobs[i];
          assert BuiltFor(prev.1, i);
          var j :| 0 <= j < |prev.1| && prev.1[j].image == i;
          assert r.1[..|prev.1|][j] == prev.1[j];
        }
      }
    }
  }

  /** One more job extends the reference walk by one step. */
  lemma ReplayStep(jobs: seq<Option<Job>>, n: nat, order: seq<string>)
    requires n < |jobs|
    ensures Replay(jobs[..n + 1], order) == Apply(Replay(jobs[..n], order), n, jobs[n])
  {
    assert jobs[..n + 1][..n] == jobs[..n];
  }

  /** The body of the `images.forEach` callback for image number `n`: it
      follows the image's plan. */
  method HandleImage(n: nat, img: Image, videoMap: Table, contextName: string, order: seq<string>)
    returns (order': seq<string>, built: Option<Build>)
    requires Valid(videoMap)
    ensures built.Some? <==> Plan(videoMap, img, contextName).Some?
    ensures built.None? ==> order' == order
    ensures built.Some? ==>
      var job := Plan(videoMap, img, contextName).value;
      && built.value == Build(n, job.player, job.value, job.alt, |order| == 0)
      && order' == order + [job.alt]
  {
    if img.relatedThumb {
      return order, None;
    }
    if contextName == ProjectPage && !img.inImageGrid {
      return order, None;
    }
    if img.alt.None? || img.alt.value == [] {
      return order, None;
    }
    var altTag := img.alt.value;
    var matchedKey := MatchedKey(videoMap, altTag);
    if matchedKey.None? {
      return order, None;
    }
    GetListed(videoMap, matchedKey.value);
    var videoValue := Get(videoMap, matchedKey.value).value;
    order', built := CreateVideoBackground(n, videoValue, altTag, order);
  }

  /** The `images.forEach` walk over a parsed table agrees with the reference
      walk over the images' plans. */
  method WalkImages(images: seq<Image>, videoMap: Table, contextName: string, order: seq<string>)
    returns (order': seq<string>, builds: seq<Build>)
    requires Valid(videoMap)
    ensures (order', builds) == Replay(Plans(videoMap, images, contextName), order)
  {
    ghost var plans := Plans(videoMap, images, contextName);
    order', builds := order, [];
    var n := 0;
    while n < |images|
      invariant n <= |images|
      invariant (order', builds) == Replay(plans[..n], order)
    {
      var built;
      ghost var state := (order', builds);
      order', built := HandleImage(n, images[n], videoMap, contextName, order');
      if built.Some? {
        builds := builds + [built.value];
      }
      ReplayStep(plans, n, order);
      n := n + 1;
    }
    assert plans[..|images|] == plans;
  }

  /** `processImagesWithVideoMappings` for one context: empty mapping text
      stops at once and builds nothing; otherwise the text is parsed and the
      images are walked. */
  method ProcessImages(images: seq<Image>, text: string, contextName: string, order: seq<string>)
    returns (order': seq<string>, builds: seq<Build>)
    ensures text == [] ==> order' == order && builds == []
    ensures text != [] ==> (order', builds) == Replay(Plans(Parse(text), images, contextName), order)
  {
    if text == [] {
      return order, [];
    }
    var videoMap := Parse(text);
    order', builds := WalkImages(images, videoMap, contextName, order);
  }
}
