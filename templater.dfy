/** The build pipeline: splitting a post into front matter and Markdown,
    collecting build jobs, and producing the post pages and the home page by
    literal placeholder substitution.

    The collaborators the pipeline calls but does not define are parameters:
    `read` is reading a file into text (`read_string(..).unwrap()`),
    `decode` is the YAML decoder (`serde_yaml::from_str`, `None` when it
    fails), `render` is the Markdown renderer (`markdown::to_html`) and
    `writes` says whether writing a given file succeeds (`fs::write`). */
module Templater {
  import opened Wrappers
  import opened Strings
  import Io

  /** The decoded front matter of a post. */
  datatype Conf = Conf(title: string, date: string, template: string)

  /** The home page template and the navigation markup to put into it. */
  datatype HomeTemplate = HomeTemplate(template: string, markup: string)

  /** A post template's text and a post's Markdown body. */
  datatype PostTemplate = PostTemplate(template: string, markdown: string)

  /** One build job, the pair `(PostTemplate, Conf)`. */
  datatype Job = Job(post: PostTemplate, conf: Conf)

  /** A file the build writes: its path and its text. */
  datatype Output = Output(path: string, text: string)

  /** A failed `fs::write`, identified by the path that could not be written. */
  datatype WriteError = WriteError(path: string)

  /** `new_vec` panicked: the YAML front matter of this post did not decode. */
  datatype DecodePanic = DecodePanic(post: string)

  // ---------------------------------------------------------------------
  // Slugs and output files

  /** The file name stem of a post: its title lower-cased, then every space
      replaced by a hyphen. */
  function Slug(title: string): string {
    Io.Transformed(Io.Transformed(title, Io.Lowercase), Io.NoWhitespaces)
  }

  /** The slug keeps the length of the title, turns each space into '-' and
      each 'A'..'Z' into its lower-case letter, and keeps everything else. */
  lemma SlugCharwise(title: string)
    ensures |Slug(title)| == |title|
    ensures forall i | 0 <= i < |title| ::
      Slug(title)[i] == if title[i] == ' ' then '-'
                        else if 'A' <= title[i] <= 'Z' then (title[i] as int + 32) as char
                        else title[i]
  {
    var lower := Io.Transformed(title, Io.Lowercase);
    Io.TransformedCharwise(title, Io.Lowercase);
    Io.TransformedCharwise(lower, Io.NoWhitespaces);
  }

  /** A slug contains no space and no upper-case ASCII letter. */
  lemma SlugClean(title: string)
    ensures forall i | 0 <= i < |Slug(title)| :: Slug(title)[i] != ' ' && !('A' <= Slug(title)[i] <= 'Z')
  {
    SlugCharwise(title);
  }

  /** Slugging a slug changes nothing. */
  lemma SlugIdempotent(title: string)
    ensures Slug(Slug(title)) == Slug(title)
  {
    var s := Slug(title);
    SlugCharwise(title);
    SlugCharwise(s);
  }

  /** The text of a post page: the three placeholders replaced in this
      order, each pass working on the result of the previous one. */
  function PostBody(template: string, title: string, date: string, html: string): string {
    ReplaceAll(ReplaceAll(ReplaceAll(template, "{{title}}", title), "{{date}}", date), "{{content}}", html)
  }

  /** The file `build` writes for one job. */
  function PostOutput(job: Job, out: string, render: string -> string): Output {
    Output(out + "/" + Slug(job.conf.title) + ".html",
           PostBody(job.post.template, job.conf.title, job.conf.date, render(job.post.markdown)))
  }

  /** `Buildable for (PostTemplate, Conf)`: the page is written, or the write fails. */
  function BuildPost(job: Job, out: string, render: string -> string, writes: Output -> bool): (r: Result<Output, WriteError>)
    ensures r.Ok? <==> writes(PostOutput(job, out, render))
    ensures r.Ok? ==> r.value == PostOutput(job, out, render)
    ensures r.Ok? ==> r.value.path == out + "/" + Slug(job.conf.title) + ".html"
    ensures r.Err? ==> r.error.path == out + "/" + Slug(job.conf.title) + ".html"
  {
    var o := PostOutput(job, out, render);
    if writes(o) then Ok(o) else Err(WriteError(o.path))
  }

  /** The file `build` writes for the home page. */
  function HomeOutput(home: HomeTemplate, out: string): Output {
    Output(out + "/home.html", ReplaceAll(home.template, "{{list}}", home.markup))
  }

  /** `Buildable for HomeTemplate`: the home page is written, or the write fails. */
  function BuildHome(home: HomeTemplate, out: string, writes: Output -> bool): (r: Result<Output, WriteError>)
    ensures r.Ok? <==> writes(HomeOutput(home, out))
    ensures r.Ok? ==> r.value == HomeOutput(home, out)
    ensures r.Ok? ==> r.value.path == out + "/home.html"
    ensures r.Err? ==> r.error.path == out + "/home.html"
  {
    var o := HomeOutput(home, out);
    if writes(o) then Ok(o) else Err(WriteError(o.path))
  }

  /** The home page is the template cut at every `{{list}}` and glued back
      with the markup: one copy of the markup per placeholder, the rest kept. */
  lemma HomeTextIsJoin(home: HomeTemplate, out: string)
    ensures HomeOutput(home, out).text == Join(SplitOn(home.template, "{{list}}"), home.markup)
  {
    ReplaceAllIsJoin(home.template, "{{list}}", home.markup);
  }

  /** The markup enters the home page verbatim and is not rescanned: after
      the first `{{list}}` only the rest of the template is searched. */
  lemma HomeMarkupNotRescanned(u: string, w: string, markup: string, out: string)
    requires forall i: nat | i < |u| :: !At(u + "{{list}}" + w, "{{list}}", i)
    ensures HomeOutput(HomeTemplate(u + "{{list}}" + w, markup), out).text
         == u + markup + ReplaceAll(w, "{{list}}", markup)
  {
    ReplaceAllFirstMatch(u, w, "{{list}}", markup);
  }

  /** A home template without `{{list}}` is written unchanged. */
  lemma HomeWithoutPlaceholder(home: HomeTemplate, out: string)
    requires forall i: nat :: !At(home.template, "{{list}}", i)
    ensures HomeOutput(home, out).text == home.template
  {
    ReplaceAllUnchanged(home.template, "{{list}}", home.markup);
  }

  /** A template with none of the three placeholders is written unchanged. */
  lemma PostWithoutPlaceholders(template: string, title: string, date: string, html: string)
    requires forall i: nat :: !At(template, "{{title}}", i)
    requires forall i: nat :: !At(template, "{{date}}", i)
    requires forall i: nat :: !At(template, "{{content}}", i)
    ensures PostBody(template, title, date, html) == template
  {
    ReplaceAllUnchanged(template, "{{title}}", title);
    ReplaceAllUnchanged(template, "{{date}}", date);
    ReplaceAllUnchanged(template, "{{content}}", html);
  }

  /** The rendered content is the last value inserted and is never
      rescanned: once the title and date passes are done and the first
      `{{content}}` of their result is replaced, only the rest is searched. */
  lemma PostContentNotRescanned(t: string, u: string, w: string, title: string, date: string, html: string)
    requires ReplaceAll(ReplaceAll(t, "{{title}}", title), "{{date}}", date) == u + "{{content}}" + w
    requires forall i: nat | i < |u| :: !At(u + "{{content}}" + w, "{{content}}", i)
    ensures PostBody(t, title, date, html) == u + html + ReplaceAll(w, "{{content}}", html)
  {
    ReplaceAllFirstMatch(u, w, "{{content}}", html);
  }

  /** A title is inserted before the later passes run, so any `{{date}}` or
      `{{content}}` inside the title is itself replaced. */
  lemma PostTitleRewritten(title: string, date: string, html: string)
    ensures PostBody("{{title}}", title, date, html)
         == ReplaceAll(ReplaceAll(title, "{{date}}", date), "{{content}}", html)
  {
    ReplaceAllFirstMatch([], [], "{{title}}", title);
    assert [] + "{{title}}" + [] == "{{title}}";
    assert [] + title + ReplaceAll([], "{{title}}", title) == title;
  }

  /** Likewise a `{{content}}` inside the date is replaced by the rendered content. */
  lemma PostDateRewritten(title: string, date: string, html: string)
    ensures PostBody("{{date}}", title, date, html) == ReplaceAll(date, "{{content}}", html)
  {
    ReplaceAllUnchanged("{{date}}", "{{title}}", title);
    ReplaceAllFirstMatch([], [], "{{date}}", date);
    assert [] + "{{date}}" + [] == "{{date}}";
    assert [] + date + ReplaceAll([], "{{date}}", date) == date;
  }

  // ---------------------------------------------------------------------
  // Running the jobs

  /** What a batch build did: the files written, in order, and how it ended. */
  datatype Batch = Batch(written: seq<Output>, result: Result<(), WriteError>)

  /** `Buildable for Vec<(PostTemplate, Conf)>`: the jobs in order, stopping
      at the first job whose write fails. */
  function BuildBatch(jobs: seq<Job>, out: string, render: string -> string, writes: Output -> bool): Batch
    decreases |jobs|
  {
    if jobs == [] then Batch([], Ok(()))
    else match BuildPost(jobs[0], out, render, writes)
      case Err(e) => Batch([], Err(e))
      case Ok(o) =>
        var rest := BuildBatch(jobs[1..], out, render, writes);
        Batch([o] + rest.written, rest.result)
  }

  /** The batch writes the pages of a prefix of the jobs, in job order; it
      succeeds exactly when that prefix is all of them, and otherwise fails
      with the write error of the next job, after which nothing is tried. */
  lemma {:induction false} BatchStopsAtFirstFailure(jobs: seq<Job>, out: string, render: string -> string, writes: Output -> bool)
    ensures var b := BuildBatch(jobs, out, render, writes);
      && |b.written| <= |jobs|
      && (forall m | 0 <= m < |b.written| ::
            b.written[m] == PostOutput(jobs[m], out, render) && writes(b.written[m]))
      && (b.result.Ok? <==> |b.written| == |jobs|)
      && (b.result.Err? ==>
            && !writes(PostOutput(jobs[|b.written|], out, render))
            && b.result.error == WriteError(PostOutput(jobs[|b.written|], out, render).path))
    decreases |jobs|
  {
    if jobs != [] {
      BatchStopsAtFirstFailure(jobs[1..], out, render, writes);
      var o := PostOutput(jobs[0], out, render);
      if writes(o) {
        var rest := BuildBatch(jobs[1..], out, render, writes);
        assert BuildBatch(jobs, out, render, writes) == Batch([o] + rest.written, rest.result);
        forall m | 1 <= m < 1 + |rest.written| ensures jobs[m] == jobs[1..][m - 1] {}
      }
    }
  }

  /** The loop of `Buildable for Vec<..>`, which returns at the first error. */
  method BuildAll(jobs: seq<Job>, out: string, render: string -> string, writes: Output -> bool)
    returns (written: seq<Output>, result: Result<(), WriteError>)
    ensures Batch(written, result) == BuildBatch(jobs, out, render, writes)
  {
    written := [];
    for n := 0 to |jobs|
      invariant BuildBatch(jobs, out, render, writes) == Prefixed(written, BuildBatch(jobs[n..], out, render, writes))
    {
      assert jobs[n..][1..] == jobs[n + 1..];
      var r := BuildPost(jobs[n], out, render, writes);
      if r.Err? {
        return written, Err(r.error);
      }
      written := written + [r.value];
    }
    result := Ok(());
  }

  /** A batch preceded by files already written. */
  function Prefixed(done: seq<Output>, b: Batch): Batch {
    Batch(done + b.written, b.result)
  }

  // ---------------------------------------------------------------------
  // Front matter

  /** A match of `---(.*?)----(.*?)----` (dot matching newlines) with the
      opening fence at i, the middle fence at j and the closing fence at k. */
  predicate FrontMatterAt(s: string, i: nat, j: nat, k: nat) {
    At(s, "---", i) && i + 3 <= j && At(s, "----", j) && j + 4 <= k && At(s, "----", k)
  }

  /** Where the regex engine places the three fences: the opening fence is
      the first `---`, the middle fence the first `----` after it and the
      closing fence the next `----`. There is a result exactly when the
      pattern matches somewhere, and its fences lie at or before those of
      every match, so the match starts leftmost and both lazy captures are
      the shortest possible. */
  function Fences(s: string): (r: Option<(nat, nat, nat)>)
    ensures r.Some? ==> FrontMatterAt(s, r.value.0, r.value.1, r.value.2)
    ensures forall i: nat, j: nat, k: nat | FrontMatterAt(s, i, j, k) ::
      r.Some? && r.value.0 <= i && r.value.1 <= j && r.value.2 <= k
  {
    match Find(s, "---", 0)
    case None => None
    case Some(i) =>
      match Find(s, "----", i + 3)
      case None => None
      case Some(j) =>
        match Find(s, "----", j + 4)
        case None => None
        case Some(k) => Some((i, j, k))
  }

  /** The two captures of the front-matter pattern. */
  function Captures(s: string): Option<(string, string)> {
    match Fences(s)
    case None => None
    case Some((i, j, k)) => Some((s[i + 3..j], s[j + 4..k]))
  }

  /** There is a capture exactly when the pattern matches, and the captures
      are those of the leftmost match with the shortest first capture. */
  lemma CapturesIsLeftmostLazyMatch(s: string)
    ensures Captures(s).None? <==> !exists i: nat, j: nat, k: nat :: FrontMatterAt(s, i, j, k)
    ensures Captures(s).Some? ==>
      exists i: nat, j: nat, k: nat ::
        && FrontMatterAt(s, i, j, k)
        && Captures(s).value == (s[i + 3..j], s[j + 4..k])
        && (forall i': nat, j': nat, k': nat | FrontMatterAt(s, i', j', k') :: i <= i' && j <= j' && k <= k')
  {
    if Fences(s).Some? {
      var (i, j, k) := Fences(s).value;
      assert FrontMatterAt(s, i, j, k);
    }
  }

  // ---------------------------------------------------------------------
  // Collecting the jobs

  /** What `new_vec` does with one post. */
  datatype Step = NoJob | NewJob(job: Job) | Undecodable

  /** One pass of the loop of `new_vec`: read the post, split off the front
      matter, decode `---` followed by the first capture, and keep the post
      when the template it names is one of `templates`. */
  function CollectStep(post: string, templates: seq<string>, templateDir: string,
                       read: string -> string, decode: string -> Option<Conf>): Step
  {
    match Captures(read(post))
    case None => NoJob
    case Some((meta, markdown)) =>
      match decode("---" + meta)
      case None => Undecodable
      case Some(config) =>
        if config.template in templates
        then NewJob(Job(PostTemplate(read(templateDir + "/" + config.template), markdown), config))
        else NoJob
  }

  /** `CollectStep` with everything but the post fixed. */
  function StepFn(templates: seq<string>, templateDir: string,
                  read: string -> string, decode: string -> Option<Conf>): string -> Step
  {
    post => CollectStep(post, templates, templateDir, read, decode)
  }

  /** What each post gives, in post order. */
  function Steps(posts: seq<string>, step: string -> Step): (steps: seq<Step>)
    ensures |steps| == |posts|
    ensures forall p | 0 <= p < |posts| :: steps[p] == step(posts[p])
  {
    seq(|posts|, p requires 0 <= p < |posts| => step(posts[p]))
  }

  /** The jobs of the given outcomes in order, or a panic at the first post
      whose front matter does not decode. */
  function Gather(posts: seq<string>, steps: seq<Step>): Result<seq<Job>, DecodePanic>
    requires |steps| == |posts|
    decreases |posts|
  {
    if posts == [] then Ok([])
    else match steps[0]
      case Undecodable => Err(DecodePanic(posts[0]))
      case NoJob => Gather(posts[1..], steps[1..])
      case NewJob(job) => PrependAll([job], Gather(posts[1..], steps[1..]))
  }

  /** The result of `PostTemplate::new_vec`: its jobs, or the post at which it panics. */
  function Collect(posts: seq<string>, templates: seq<string>, templateDir: string,
                   read: string -> string, decode: string -> Option<Conf>): Result<seq<Job>, DecodePanic>
  {
    Gather(posts, Steps(posts, StepFn(templates, templateDir, read, decode)))
  }

  /** Jobs already collected in front of a collection, which stays a panic if it was one. */
  function PrependAll(done: seq<Job>, r: Result<seq<Job>, DecodePanic>): Result<seq<Job>, DecodePanic> {
    match r
    case Ok(jobs) => Ok(done + jobs)
    case Err(e) => Err(e)
  }

  /** One unfolding of `Gather` at position `n`. */
  lemma GatherAt(posts: seq<string>, steps: seq<Step>, n: nat)
    requires |steps| == |posts| && n < |posts|
    ensures Gather(posts[n..], steps[n..]) ==
      match steps[n]
      case Undecodable => Err(DecodePanic(posts[n]))
      case NoJob => Gather(posts[n + 1..], steps[n + 1..])
      case NewJob(job) => PrependAll([job], Gather(posts[n + 1..], steps[n + 1..]))
  {
    assert posts[n..][1..] == posts[n + 1..] && steps[n..][1..] == steps[n + 1..];
    assert steps[n..][0] == steps[n] && posts[n..][0] == posts[n];
  }

  /** Prepending twice is prepending the concatenation. */
  lemma PrependAllTwice(a: seq<Job>, b: seq<Job>, r: Result<seq<Job>, DecodePanic>)
    ensures PrependAll(a, PrependAll(b, r)) == PrependAll(a + b, r)
  {
    if r.Ok? { assert a + (b + r.value) == a + b + r.value; }
  }

  /** The loop of `new_vec` after `n` posts: the jobs `done` so far, put in
      front of what the remaining posts gather, are what all posts gather. */
  predicate Gathering(posts: seq<string>, steps: seq<Step>, done: seq<Job>, n: nat)
    requires |steps| == |posts| && n <= |posts|
  {
    Gather(posts, steps) == PrependAll(done, Gather(posts[n..], steps[n..]))
  }

  /** A post that gives no job leaves the jobs as they are. */
  lemma GatheringSkip(posts: seq<string>, steps: seq<Step>, done: seq<Job>, n: nat)
    requires |steps| == |posts| && n < |posts| && Gathering(posts, steps, done, n)
    requires steps[n] == NoJob
    ensures Gathering(posts, steps, done, n + 1)
  {
    GatherAt(posts, steps, n);
  }

  /** A post that gives a job adds it after the others. */
  lemma GatheringKeep(posts: seq<string>, steps: seq<Step>, done: seq<Job>, n: nat, job: Job)
    requires |steps| == |posts| && n < |posts| && Gathering(posts, steps, done, n)
    requires steps[n] == NewJob(job)
    ensures Gathering(posts, steps, done + [job], n + 1)
  {
    GatherAt(posts, steps, n);
    PrependAllTwice(done, [job], Gather(posts[n + 1..], steps[n + 1..]));
  }

  /** A post whose front matter does not decode is where everything panics. */
  lemma GatheringStop(posts: seq<string>, steps: seq<Step>, done: seq<Job>, n: nat)
    requires |steps| == |posts| && n < |posts| && Gathering(posts, steps, done, n)
    requires steps[n] == Undecodable
    ensures Gather(posts, steps) == Err(DecodePanic(posts[n]))
  {
    GatherAt(posts, steps, n);
  }

  /** One pass of the loop of `new_vec`: read the post, split off its front
      matter, decode it, and read the template it names when that template
      is one of `templates`. */
  method ReadPost(post: string, templates: seq<string>, templateDir: string,
                  read: string -> string, decode: string -> Option<Conf>)
    returns (step: Step)
    ensures step == CollectStep(post, templates, templateDir, read, decode)
  {
    var content := read(post);
    var caps := Captures(content);
    if caps.None? {
      return NoJob;
    }
    var config := decode("---" + caps.value.0);
    if config.None? {
      return Undecodable;
    }
    if config.value.template in templates {
      var html := read(templateDir + "/" + config.value.template);
      var markdown := caps.value.1;
      return NewJob(Job(PostTemplate(html, markdown), config.value));
    }
    return NoJob;
  }

  /** `PostTemplate::new_vec`: a loop over the posts pushing one job per
      usable post; a front matter that does not decode ends it in a panic. */
  method NewVec(posts: seq<string>, templates: seq<string>, templateDir: string,
                read: string -> string, decode: string -> Option<Conf>)
    returns (r: Result<seq<Job>, DecodePanic>)
    ensures r == Collect(posts, templates, templateDir, read, decode)
  {
    ghost var steps := Steps(posts, StepFn(templates, templateDir, read, decode));
    var templater: seq<Job> := [];
    var n := 0;
    assert posts[n..] == posts && steps[n..] == steps;
    if Gather(posts, steps).Ok? { assert [] + Gather(posts, steps).value == Gather(posts, steps).value; }
    while n < |posts|
      invariant 0 <= n <= |posts|
      invariant Gathering(posts, steps, templater, n)
    {
      var step := ReadPost(posts[n], templates, templateDir, read, decode);
      assert steps[n] == step;
      match step {
        case Undecodable =>
          GatheringStop(posts, steps, templater, n);
          return Err(DecodePanic(posts[n]));
        case NoJob =>
          GatheringSkip(posts, steps, templater, n);
        case NewJob(job) =>
          GatheringKeep(posts, steps, templater, n, job);
          templater := templater + [job];
      }
      n := n + 1;
    }
    assert posts[n..] == [];
    assert templater + [] == templater;
    r := Ok(templater);
  }

  /** `idx` gives, in increasing order, the outcome at or after `lo` each
      job comes from, and every other outcome from `lo` on is `NoJob`. */
  ghost predicate OriginsFrom(steps: seq<Step>, jobs: seq<Job>, idx: seq<nat>, lo: nat) {
    && |idx| == |jobs|
    && (forall m | 0 <= m < |idx| :: lo <= idx[m] < |steps| && steps[idx[m]] == NewJob(jobs[m]))
    && (forall m, m' | 0 <= m < m' < |idx| :: idx[m] < idx[m'])
    && (forall p | lo <= p < |steps| && p !in idx :: steps[p] == NoJob)
  }

  /** The origins of the jobs of a tail, as indices into the whole list. */
  lemma ShiftOrigins(steps: seq<Step>, tail: seq<nat>, rest: seq<Job>) returns (shifted: seq<nat>)
    requires |steps| >= 1 && OriginsFrom(steps[1..], rest, tail, 0)
    ensures OriginsFrom(steps, rest, shifted, 1)
  {
    shifted := seq(|tail|, m requires 0 <= m < |tail| => tail[m] + 1);
    forall m | 0 <= m < |tail| ensures steps[shifted[m]] == NewJob(rest[m]) {
      assert steps[shifted[m]] == steps[1..][tail[m]];
    }
    forall p | 1 <= p < |steps| && p !in shifted ensures steps[p] == NoJob {
      forall m | 0 <= m < |tail| ensures tail[m] != p - 1 {
        assert shifted[m] in shifted;
      }
      assert steps[p] == steps[1..][p - 1];
    }
  }

  /** One unfolding of a `Gather` that does not panic. */
  lemma GatherHead(posts: seq<string>, steps: seq<Step>)
    requires |steps| == |posts| && posts != [] && Gather(posts, steps).Ok?
    ensures !steps[0].Undecodable? && Gather(posts[1..], steps[1..]).Ok?
    ensures Gather(posts, steps).value ==
      (if steps[0].NewJob? then [steps[0].job] else []) + Gather(posts[1..], steps[1..]).value
  {
    if steps[0].NoJob? {
      assert [] + Gather(posts[1..], steps[1..]).value == Gather(posts[1..], steps[1..]).value;
    }
  }

  /** The gathered jobs are a subsequence of the outcomes: see `CollectIsSubsequence`. */
  lemma {:induction false} GatherIsSubsequence(posts: seq<string>, steps: seq<Step>) returns (idx: seq<nat>)
    requires |steps| == |posts|
    requires Gather(posts, steps).Ok?
    ensures |idx| <= |posts|
    ensures OriginsFrom(steps, Gather(posts, steps).value, idx, 0)
    decreases |posts|
  {
    if posts == [] {
      idx := [];
    } else {
      GatherHead(posts, steps);
      var tail := GatherIsSubsequence(posts[1..], steps[1..]);
      var rest := Gather(posts[1..], steps[1..]).value;
      var shifted := ShiftOrigins(steps, tail, rest);
      if steps[0].NewJob? {
        idx := PrependOrigin(steps, shifted, rest);
      } else {
        idx := NoJobOrigin(steps, shifted, rest);
        assert [] + rest == rest;
      }
    }
  }

  /** The origins of the jobs when the first outcome is itself a job. */
  lemma PrependOrigin(steps: seq<Step>, shifted: seq<nat>, rest: seq<Job>) returns (idx: seq<nat>)
    requires |steps| >= 1 && steps[0].NewJob? && OriginsFrom(steps, rest, shifted, 1)
    ensures |idx| == |shifted| + 1
    ensures OriginsFrom(steps, [steps[0].job] + rest, idx, 0)
  {
    idx := [0] + shifted;
    var jobs := [steps[0].job] + rest;
    forall m | 0 <= m < |idx| ensures idx[m] < |steps| && steps[idx[m]] == NewJob(jobs[m]) {
      if m > 0 { assert idx[m] == shifted[m - 1] && jobs[m] == rest[m - 1]; }
    }
    forall m, m' | 0 <= m < m' < |idx| ensures idx[m] < idx[m'] {
      if m > 0 { assert idx[m] == shifted[m - 1]; }
      assert idx[m'] == shifted[m' - 1];
    }
    forall p | 0 <= p < |steps| && p !in idx ensures steps[p] == NoJob {
      assert p != 0 && p !in shifted;
    }
  }

  /** The origins of the jobs when the first outcome gives no job. */
  lemma NoJobOrigin(steps: seq<Step>, shifted: seq<nat>, rest: seq<Job>) returns (idx: seq<nat>)
    requires |steps| >= 1 && steps[0].NoJob? && OriginsFrom(steps, rest, shifted, 1)
    ensures |idx| == |shifted|
    ensures OriginsFrom(steps, rest, idx, 0)
  {
    idx := shifted;
  }

  /** A post that gives a job names one of the known templates. */
  lemma NewJobTemplateKnown(post: string, templates: seq<string>, templateDir: string,
                            read: string -> string, decode: string -> Option<Conf>)
    requires CollectStep(post, templates, templateDir, read, decode).NewJob?
    ensures CollectStep(post, templates, templateDir, read, decode).job.conf.template in templates
  {
  }

  /** The jobs form a subsequence of the posts: `idx` gives, in increasing
      order, the post each job comes from; every post not in `idx` gave no
      job, and every job names one of the known templates. */
  lemma CollectIsSubsequence(posts: seq<string>, templates: seq<string>, templateDir: string,
                             read: string -> string, decode: string -> Option<Conf>)
      returns (idx: seq<nat>)
    requires Collect(posts, templates, templateDir, read, decode).Ok?
    ensures var jobs := Collect(posts, templates, templateDir, read, decode).value;
      && |idx| == |jobs| <= |posts|
      && (forall m | 0 <= m < |idx| ::
            idx[m] < |posts| && CollectStep(posts[idx[m]], templates, templateDir, read, decode) == NewJob(jobs[m]))
      && (forall m, m' | 0 <= m < m' < |idx| :: idx[m] < idx[m'])
      && (forall p | 0 <= p < |posts| && p !in idx ::
            CollectStep(posts[p], templates, templateDir, read, decode) == NoJob)
      && (forall m | 0 <= m < |jobs| :: jobs[m].conf.template in templates)
  {
    var steps := Steps(posts, StepFn(templates, templateDir, read, decode));
    idx := GatherIsSubsequence(posts, steps);
    assert OriginsFrom(steps, Collect(posts, templates, templateDir, read, decode).value, idx, 0);
    forall m | 0 <= m < |idx| ensures Collect(posts, templates, templateDir, read, decode).value[m].conf.template in templates {
      NewJobTemplateKnown(posts[idx[m]], templates, templateDir, read, decode);
    }
  }

  /** `Gather` panics exactly when some outcome is `Undecodable`, naming the first. */
  lemma {:induction false} GatherPanics(posts: seq<string>, steps: seq<Step>)
    requires |steps| == |posts|
    ensures Gather(posts, steps).Err? <==> exists p | 0 <= p < |posts| :: steps[p].Undecodable?
    ensures Gather(posts, steps).Err? ==>
      exists p | 0 <= p < |posts| ::
        && steps[p].Undecodable?
        && Gather(posts, steps).error == DecodePanic(posts[p])
        && (forall q | 0 <= q < p :: !steps[q].Undecodable?)
    decreases |posts|
  {
    if posts != [] {
      GatherPanics(posts[1..], steps[1..]);
      var r := Gather(posts, steps);
      if steps[0].Undecodable? {
        assert r.error == DecodePanic(posts[0]);
      } else if r.Err? {
        var p :| 0 <= p < |posts[1..]|
          && steps[1..][p].Undecodable?
          && Gather(posts[1..], steps[1..]).error == DecodePanic(posts[1..][p])
          && (forall q | 0 <= q < p :: !steps[1..][q].Undecodable?);
        assert steps[p + 1].Undecodable? && posts[p + 1] == posts[1..][p];
        assert forall q | 1 <= q < p + 1 :: steps[q] == steps[1..][q - 1];
      } else {
        forall p | 0 <= p < |posts| ensures !steps[p].Undecodable? {
          if p > 0 { assert steps[p] == steps[1..][p - 1]; }
        }
      }
    }
  }

  /** `new_vec` panics exactly when some post has a front matter that does
      not decode, and it names the first such post. */
  lemma CollectPanicsAtFirstUndecodable(posts: seq<string>, templates: seq<string>, templateDir: string,
                                        read: string -> string, decode: string -> Option<Conf>)
    ensures Collect(posts, templates, templateDir, read, decode).Err? <==>
      exists p | 0 <= p < |posts| :: CollectStep(posts[p], templates, templateDir, read, decode).Undecodable?
    ensures Collect(posts, templates, templateDir, read, decode).Err? ==>
      exists p | 0 <= p < |posts| ::
        && CollectStep(posts[p], templates, templateDir, read, decode).Undecodable?
        && Collect(posts, templates, templateDir, read, decode).error == DecodePanic(posts[p])
        && (forall q | 0 <= q < p :: !CollectStep(posts[q], templates, templateDir, read, decode).Undecodable?)
  {
    var steps := Steps(posts, StepFn(templates, templateDir, read, decode));
    GatherPanics(posts, steps);
    if Collect(posts, templates, templateDir, read, decode).Err? {
      var p :| 0 <= p < |posts| && steps[p].Undecodable?
        && Gather(posts, steps).error == DecodePanic(posts[p])
        && (forall q | 0 <= q < p :: !steps[q].Undecodable?);
      assert CollectStep(posts[p], templates, templateDir, read, decode).Undecodable?;
    } else {
      forall p | 0 <= p < |posts| ensures !CollectStep(posts[p], templates, templateDir, read, decode).Undecodable? {
        assert steps[p] == CollectStep(posts[p], templates, templateDir, read, decode);
      }
    }
  }

  /** Gathering two lists one after the other. */
  lemma {:induction false} GatherAppend(a: seq<string>, sa: seq<Step>, b: seq<string>, sb: seq<Step>)
    requires |sa| == |a| && |sb| == |b|
    ensures Gather(a + b, sa + sb)
         == match Gather(a, sa)
            case Ok(jobs) => PrependAll(jobs, Gather(b, sb))
            case Err(e) => Err(e)
    decreases |a|
  {
    if a == [] {
      assert a + b == b && sa + sb == sb;
      match Gather(b, sb) {
        case Ok(jobs) => assert [] + jobs == jobs;
        case Err(e) =>
      }
    } else {
      assert (a + b)[0] == a[0] && (sa + sb)[0] == sa[0];
      assert (a + b)[1..] == a[1..] + b && (sa + sb)[1..] == sa[1..] + sb;
      GatherAppend(a[1..], sa[1..], b, sb);
      match Gather(b, sb) {
        case Ok(ys) =>
          match Gather(a[1..], sa[1..]) {
            case Ok(xs) =>
              if sa[0].NewJob? {
                assert [sa[0].job] + (xs + ys) == ([sa[0].job] + xs) + ys;
              }
            case Err(e) =>
          }
        case Err(e) =>
      }
    }
  }

  /** The outcomes of two lists of posts one after the other. */
  lemma StepsAppend(a: seq<string>, b: seq<string>, step: string -> Step)
    ensures Steps(a + b, step) == Steps(a, step) + Steps(b, step)
  {
    var s := Steps(a + b, step);
    forall p | 0 <= p < |a + b| ensures s[p] == (Steps(a, step) + Steps(b, step))[p] {
      if p < |a| { assert (a + b)[p] == a[p]; } else { assert (a + b)[p] == b[p - |a|]; }
    }
  }

  /** A post with no front matter, or naming an unknown template, adds no
      job wherever it stands among the posts. */
  lemma SkippedPostContributesNothing(a: seq<string>, post: string, b: seq<string>,
                                      templates: seq<string>, templateDir: string,
                                      read: string -> string, decode: string -> Option<Conf>)
    requires CollectStep(post, templates, templateDir, read, decode) == NoJob
    ensures Collect(a + [post] + b, templates, templateDir, read, decode) == Collect(a + b, templates, templateDir, read, decode)
  {
    var step := StepFn(templates, templateDir, read, decode);
    var sa := Steps(a, step);
    var sb := Steps(b, step);
    assert Steps([post], step) == [NoJob];
    assert a + [post] + b == a + ([post] + b);
    StepsAppend([post], b, step);
    StepsAppend(a, [post] + b, step);
    StepsAppend(a, b, step);
    GatherAppend(a, sa, [post] + b, [NoJob] + sb);
    GatherAppend(a, sa, b, sb);
    assert ([post] + b)[1..] == b && ([NoJob] + sb)[1..] == sb;
  }

  /** A post gives no job exactly when it has no front matter, or its front
      matter decodes to a Conf naming a template not among `templates`. */
  lemma NoJobCases(post: string, templates: seq<string>, templateDir: string,
                   read: string -> string, decode: string -> Option<Conf>)
    ensures CollectStep(post, templates, templateDir, read, decode) == NoJob <==>
      || (!exists i: nat, j: nat, k: nat :: FrontMatterAt(read(post), i, j, k))
      || (exists c :: decode("---" + Captures(read(post)).value.0) == Some(c) && c.template !in templates)
  {
    CapturesIsLeftmostLazyMatch(read(post));
  }

  /** For a post that gives a job, the decoder received `---` followed by
      the first capture of the leftmost lazy match, the job's Markdown is
      exactly the second capture, and its template text is the file the
      front matter names in the template directory. */
  lemma NewJobFromFrontMatter(post: string, templates: seq<string>, templateDir: string,
                              read: string -> string, decode: string -> Option<Conf>, job: Job)
    requires CollectStep(post, templates, templateDir, read, decode) == NewJob(job)
    ensures var s := read(post);
      exists i: nat, j: nat, k: nat ::
        && FrontMatterAt(s, i, j, k)
        && (forall i': nat, j': nat, k': nat | FrontMatterAt(s, i', j', k') :: i <= i' && j <= j' && k <= k')
        && decode("---" + s[i + 3..j]) == Some(job.conf)
        && job.post.markdown == s[j + 4..k]
        && job.conf.template in templates
        && job.post.template == read(templateDir + "/" + job.conf.template)
  {
    var s := read(post);
    var (i, j, k) := Fences(s).value;
    assert FrontMatterAt(s, i, j, k);
  }
}
