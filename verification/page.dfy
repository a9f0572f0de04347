/** The three page scenarios reduced to what they feed the walk
    (custom.js:489-543): a list of contexts, each with a name, the trimmed
    text content of its mappings element if one was found, and its images.
    The single shared play order starts empty (custom.js:4) and is threaded
    through the contexts in order. */
module Page {
  import opened Wrappers
  import opened Text
  import opened Mappings
  import opened Pipeline

  datatype Context = Context(name: string, mappings: Option<string>, images: seq<Image>)

  /** The jobs of one context: none without a mappings element or with blank
      mappings text; otherwise the plans of its images against the parsed
      table. */
  function ContextJobs(c: Context): seq<Option<Job>> {
    if c.mappings.None? || Trim(c.mappings.value) == [] then []
    else Plans(Parse(Trim(c.mappings.value)), c.images, c.name)
  }

  /** The jobs of every context of a page, in page order. */
  function PageJobs(contexts: seq<Context>): seq<seq<Option<Job>>>
  {
    seq(|contexts|, c requires 0 <= c < |contexts| => ContextJobs(contexts[c]))
  }

  /** The reference run of a page: each context's walk starts from the play
      order the previous ones left; the builds are kept per context. */
  function PageReplay(jobs: seq<seq<Option<Job>>>, order: seq<string>): (r: (seq<string>, seq<seq<Build>>))
    ensures |r.1| == |jobs|
    decreases |jobs|
  {
    if |jobs| == 0 then (order, [])
    else
      var prev := PageReplay(jobs[..|jobs| - 1], order);
      var step := Replay(jobs[|jobs| - 1], prev.0);
      (step.0, prev.1 + [step.1])
  }

  /** The number of builds over all contexts. */
  function Total(builds: seq<seq<Build>>): nat
    decreases |builds|
  {
    if |builds| == 0 then 0 else Total(builds[..|builds| - 1]) + |builds[|builds| - 1]|
  }

  lemma {:induction false} TotalZero(builds: seq<seq<Build>>)
    ensures Total(builds) == 0 <==> forall c :: 0 <= c < |builds| ==> |builds[c]| == 0
    decreases |builds|
  {
    if |builds| > 0 {
      TotalZero(builds[..|builds| - 1]);
      assert forall c :: 0 <= c < |builds| - 1 ==> builds[..|builds| - 1][c] == builds[c];
    }
  }

  /** The play order grows by exactly one alt text per build. */
  lemma {:induction false} PageOrderLength(jobs: seq<seq<Option<Job>>>, order: seq<string>)
    ensures |PageReplay(jobs, order).0| == |order| + Total(PageReplay(jobs, order).1)
    decreases |jobs|
  {
    if |jobs| > 0 {
      var prev := PageReplay(jobs[..|jobs| - 1], order);
      PageOrderLength(jobs[..|jobs| - 1], order);
      ReplayOrder(jobs[|jobs| - 1], prev.0);
      var r := PageReplay(jobs, order);
      assert r.1[..|r.1| - 1] == prev.1;
    }
  }

  /** No context before number `c` built anything. */
  predicate NoneBefore(builds: seq<seq<Build>>, c: nat)
    requires c <= |builds|
  {
    forall d :: 0 <= d < c ==> |builds[d]| == 0
  }

  /** A build is the first video exactly when it is the first build of its
      context and no earlier context built anything. */
  predicate FirstOnce(builds: seq<seq<Build>>) {
    forall c, j :: 0 <= c < |builds| && 0 <= j < |builds[c]| ==>
      (builds[c][j].isFirst <==> j == 0 && NoneBefore(builds, c))
  }

  /** One more context keeps `FirstOnce` when its walk starts from a play
      order holding one alt text per earlier build. */
  lemma FirstOnceStep(prev: seq<seq<Build>>, order: seq<string>, jobs: seq<Option<Job>>)
    requires FirstOnce(prev)
    requires |order| == Total(prev)
    ensures FirstOnce(prev + [Replay(jobs, order).1])
  {
    var step := Replay(jobs, order).1;
    var r: seq<seq<Build>> := prev + [step];
    var last := |prev|;
    TotalZero(prev);
    ReplayFirst(jobs, order);
    forall c, j | 0 <= c < |r| && 0 <= j < |r[c]|
      ensures r[c][j].isFirst <==> j == 0 && NoneBefore(r, c)
    {
      assert forall d :: 0 <= d < last ==> r[d] == prev[d];
      if c < last {
        assert NoneBefore(r, c) <==> NoneBefore(prev, c);
        assert r[c] == prev[c];
      } else {
        assert NoneBefore(r, c) <==> NoneBefore(prev, last);
        assert r[c] == step;
      }
    }
  }

  /** On a page that starts with an empty play order, a build is the first
      video exactly when it is the first build of its context and no earlier
      context built anything: at most one video on the page autoplays. */
  lemma {:induction false} PageFirst(jobs: seq<seq<Option<Job>>>)
    ensures FirstOnce(PageReplay(jobs, []).1)
    decreases |jobs|
  {
    if |jobs| > 0 {
      var last := |jobs| - 1;
      var prev := PageReplay(jobs[..last], []);
      PageFirst(jobs[..last]);
      PageOrderLength(jobs[..last], []);
      FirstOnceStep(prev.1, prev.0, jobs[last]);
    }
  }

  /** The page run: every context with a mappings element is processed with
      its trimmed text, in order, against the one shared play order. */
  method RunPage(contexts: seq<Context>) returns (order: seq<string>, builds: seq<seq<Build>>)
    ensures (order, builds) == PageReplay(PageJobs(contexts), [])
  {
    ghost var jobs := PageJobs(contexts);
    order, builds := [], [];
    var c := 0;
    while c < |contexts|
      invariant c <= |contexts|
      invariant (order, builds) == PageReplay(jobs[..c], [])
    {
      var built: seq<Build> := [];
      var context := contexts[c];
      if context.mappings.Some? {
        order, built := ProcessImages(context.images, Trim(context.mappings.value), context.name, order);
      }
      builds := builds + [built];
      assert jobs[..c + 1][..c] == jobs[..c];
      c := c + 1;
    }
    assert jobs[..|contexts|] == jobs;
  }
}
