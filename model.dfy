/**
 * src/model.rs: the commit classifier, the per-repository history walk,
 * the merge of all repositories' commits into one list sorted newest first,
 * and the date formatting of a commit.
 *
 * The git library is outside the model: each repository's walk is given as
 * its outcome (a failure to open it, to create the walk or to seed it from
 * HEAD, or the sequence of commit ids the time-sorted walk visits, each
 * resolved to a commit or not), and the wall clock is a parameter `now`.
 * The thread pool and progress bars are left out: repositories are scanned
 * one after the other.
 */
module Model {
  import opened Wrappers
  import opened Text
  import opened Utils

  // ---------------------------------------------------------------------
  // Repositories and commits
  // ---------------------------------------------------------------------

  /** A local git repository: absolute path, path relative to the checkout, folder name. */
  datatype Repo = Repo(absPath: Path, relPath: string, description: string)

  /** `Repo::from`: the description is the folder's own name (it panics for the root). */
  function RepoFrom(absPath: Path, relPath: string): (r: Repo)
    requires absPath != []
    ensures r.absPath == absPath && r.relPath == relPath
    ensures FileName(absPath) == Some(r.description)
  {
    Repo(absPath, relPath, FileName(absPath).value)
  }

  /** A commit as git reports it; text fields are absent when they are not valid UTF-8. */
  datatype Commit = Commit(
    id: string,
    time: Time,
    summary: Option<string>,
    authorName: Option<string>,
    authorEmail: Option<string>,
    committerName: Option<string>,
    message: Option<string>)

  /** A commit together with the repository it was found in. */
  datatype RepoCommit = RepoCommit(
    repo: Repo,
    timestamp: Time,
    summary: string,
    author: string,
    committer: string,
    commitId: string,
    message: string)

  /**
   * `RepoCommit::from`: id and time are copied; an absent summary, author or
   * committer name reads "None", an absent message reads "".
   */
  function RepoCommitFrom(repo: Repo, c: Commit): (rc: RepoCommit)
    ensures rc.repo == repo && rc.timestamp == c.time && rc.commitId == c.id
    ensures rc.summary == (if c.summary.Some? then c.summary.value else "None")
    ensures rc.author == (if c.authorName.Some? then c.authorName.value else "None")
    ensures rc.committer == (if c.committerName.Some? then c.committerName.value else "None")
    ensures rc.message == (if c.message.Some? then c.message.value else "")
  {
    RepoCommit(repo, c.time, c.summary.GetOr("None"), c.authorName.GetOr("None"),
               c.committerName.GetOr("None"), c.id, c.message.GetOr(""))
  }

  // ---------------------------------------------------------------------
  // The classifier
  // ---------------------------------------------------------------------

  const U32Modulus: nat := 0x1_0000_0000

  /** Maximum age in days (a `u32`) and the optional, already case-folded, patterns. */
  datatype Classifier = Classifier(age: nat, author: Option<string>, message: Option<string>)

  function FoldPattern(p: Option<string>): (r: Option<string>)
    ensures r.Some? <==> p.Some?
    ensures r.Some? ==> r.value == AsciiLowercase(p.value)
  {
    match p
    case None => None
    case Some(s) => Some(AsciiLowercase(s))
  }

  /** `Classifier::new`: the patterns are case-folded once, here. */
  function NewClassifier(age: nat, author: Option<string>, message: Option<string>): (c: Classifier)
    requires age < U32Modulus
    ensures c.age == age
    ensures c.author == FoldPattern(author) && c.message == FoldPattern(message)
  {
    Classifier(age, FoldPattern(author), FoldPattern(message))
  }

  /** The wall clock as chrono reads it: whole seconds and nanoseconds since the epoch. */
  datatype Instant = Instant(seconds: int, nanos: nat)

  predicate ValidInstant(now: Instant) {
    now.nanos < 1_000_000_000
  }

  /** Integer division rounding toward zero, as Rust's `/` on signed integers. */
  function TruncDiv(a: int, b: nat): (q: int)
    requires b > 0
    ensures a >= 0 ==> q == a / b
    ensures a < 0 ==> q == -((-a) / b)
    ensures q * b <= a < q * b + b || q * b - b < a <= q * b
  {
    if a >= 0 then a / b else -((-a) / b)
  }

  /**
   * `Duration::num_days` of `now - time`: the elapsed time rounded toward
   * zero to whole seconds (the sub-second part of `now` counts), then to
   * whole days.
   */
  function ElapsedDays(now: Instant, time: Time): int
    requires ValidInstant(now) && ValidOffset(time)
  {
    var secs := now.seconds - AsDateTimeUtc(time).utcSeconds;
    var wholeSeconds := if secs < 0 && now.nanos > 0 then secs + 1 else secs;
    TruncDiv(wholeSeconds, SecondsPerDay)
  }

  /** `as u32`: the low 32 bits, so a negative day count wraps to a huge one. */
  function AsU32(x: int): (r: nat)
    ensures r < U32Modulus
    ensures 0 <= x < U32Modulus ==> r == x
    ensures -(U32Modulus as int) <= x < 0 ==> r == x + U32Modulus
  {
    x % U32Modulus
  }

  predicate AgeOk(c: Classifier, commit: Commit, now: Instant)
    requires ValidInstant(now) && ValidOffset(commit.time)
  {
    AsU32(ElapsedDays(now, commit.time)) <= c.age
  }

  predicate MessageOk(c: Classifier, commit: Commit) {
    c.message.Some? ==> Contains(AsciiLowercase(commit.message.GetOr("")), c.message.value)
  }

  predicate AuthorOk(c: Classifier, commit: Commit) {
    c.author.Some? ==> Contains(AsciiLowercase(commit.authorName.GetOr("")), c.author.value)
  }

  /**
   * `Classifier::classify`: `(include, abort)`. The age test alone decides
   * `abort`; `include` needs the age test and both configured patterns.
   */
  function Classify(c: Classifier, commit: Commit, now: Instant): (r: (bool, bool))
    requires ValidInstant(now) && ValidOffset(commit.time)
    ensures r.1 <==> !AgeOk(c, commit, now)
    ensures r.0 <==> AgeOk(c, commit, now) && MessageOk(c, commit) && AuthorOk(c, commit)
  {
    var ageOk := AsU32(ElapsedDays(now, commit.time)) <= c.age;
    var afterMessage :=
      if c.message.Some? then ageOk && Contains(AsciiLowercase(commit.message.GetOr("")), c.message.value)
      else ageOk;
    var afterAuthor :=
      if c.author.Some? then afterMessage && Contains(AsciiLowercase(commit.authorName.GetOr("")), c.author.value)
      else afterMessage;
    (afterAuthor, !ageOk)
  }

  /** A commit is never both kept and the one that stops the walk. */
  lemma IncludeExcludesAbort(c: Classifier, commit: Commit, now: Instant)
    requires ValidInstant(now) && ValidOffset(commit.time)
    ensures Classify(c, commit, now).0 ==> !Classify(c, commit, now).1
  {
  }

  /** `abort` reads only the time: commits that differ in author, email or message abort alike. */
  lemma AbortIgnoresFilters(c: Classifier, a: Commit, b: Commit, now: Instant)
    requires ValidInstant(now) && ValidOffset(a.time) && a.time == b.time
    ensures Classify(c, a, now).1 == Classify(c, b, now).1
  {
  }

  /** The author filter reads the author's name only; the email is never consulted. */
  lemma EmailNeverConsulted(c: Classifier, commit: Commit, email: Option<string>, now: Instant)
    requires ValidInstant(now) && ValidOffset(commit.time)
    ensures Classify(c, commit.(authorEmail := email), now) == Classify(c, commit, now)
  {
  }

  /** Without patterns, a commit is kept exactly when it is not too old. */
  lemma NoPatternsAgeDecides(age: nat, commit: Commit, now: Instant)
    requires age < U32Modulus && ValidInstant(now) && ValidOffset(commit.time)
    ensures var r := Classify(NewClassifier(age, None, None), commit, now); r.0 == !r.1
  {
  }

  /** The age boundary: exactly `age` whole days old is kept, `age + 1` stops the walk. */
  lemma AgeBoundary(c: Classifier, commit: Commit, now: Instant)
    requires c.age + 1 < U32Modulus && ValidInstant(now) && ValidOffset(commit.time)
    ensures ElapsedDays(now, commit.time) == c.age ==> !Classify(c, commit, now).1
    ensures ElapsedDays(now, commit.time) == c.age + 1 ==> Classify(c, commit, now).1
  {
  }

  /**
   * A commit one or more whole days in the future has a negative day count,
   * which `as u32` wraps to at least 2^32 - |days|: unless the maximum age is
   * that large, it fails the age test and aborts the walk.
   */
  lemma FutureCommitAborts(c: Classifier, commit: Commit, now: Instant)
    requires ValidInstant(now) && ValidOffset(commit.time)
    requires ElapsedDays(now, commit.time) < 0
    requires c.age < U32Modulus + ElapsedDays(now, commit.time)
    ensures Classify(c, commit, now).1 && !Classify(c, commit, now).0
  {
    var d := ElapsedDays(now, commit.time);
    assert AsU32(d) == d + U32Modulus;
  }

  /** A commit exactly as old as `now` (or less than a day either way) is zero days old. */
  lemma SameDayIsAgeZero(commit: Commit, now: Instant)
    requires ValidInstant(now) && ValidOffset(commit.time)
    requires commit.time.seconds - SecondsPerDay < now.seconds <= commit.time.seconds + SecondsPerDay - 1
    ensures ElapsedDays(now, commit.time) == 0
  {
  }

  /** Message matching is case-insensitive for ASCII: the message is folded before the search. */
  lemma MessageMatchFolds(age: nat, pattern: string, commit: Commit, now: Instant)
    requires age < U32Modulus && ValidInstant(now) && ValidOffset(commit.time)
    requires commit.message.Some? && Contains(commit.message.value, pattern)
    ensures MessageOk(NewClassifier(age, None, Some(pattern)), commit)
  {
    var m := commit.message.value;
    var i :| 0 <= i <= |m| - |pattern| && OccursAt(m, pattern, i);
    var fm := AsciiLowercase(m);
    var fp := AsciiLowercase(pattern);
    assert fm[i..i + |pattern|] == AsciiLowercase(m[i..i + |pattern|]);
    assert OccursAt(fm, fp, i);
  }

  // ---------------------------------------------------------------------
  // The walk of one repository
  // ---------------------------------------------------------------------

  /** One id visited by the time-sorted walk: resolved to its commit, or not. */
  datatype WalkStep = Resolved(commit: Commit) | Unresolvable

  /** Why a repository could not be walked at all. */
  datatype WalkFailure = OpenFailed | RevwalkFailed | PushHeadFailed

  /** The outcome of opening a repository and walking its history from HEAD. */
  datatype RepoWalk = Unavailable(failure: WalkFailure) | Walked(steps: seq<WalkStep>)

  /**
   * The preconditions of `classify` (a valid `now`, a `FixedOffset` offset)
   * for every commit the loop reaches. The loop stops at the first id that
   * does not resolve and after the first aborting commit, so the commits
   * beyond those are never converted and may have any offset.
   */
  predicate StepsClassifiable(c: Classifier, steps: seq<WalkStep>, now: Instant)
    decreases |steps|
  {
    ValidInstant(now)
    && (steps == [] || steps[0].Unresolvable?
        || (ValidOffset(steps[0].commit.time)
            && (Classify(c, steps[0].commit, now).1 || StepsClassifiable(c, steps[1..], now))))
  }

  /** Every resolved commit among `steps` has a valid offset. */
  predicate OffsetsValid(steps: seq<WalkStep>, now: Instant) {
    ValidInstant(now) && forall s :: s in steps && s.Resolved? ==> ValidOffset(s.commit.time)
  }

  predicate WalkClassifiable(c: Classifier, w: RepoWalk, now: Instant) {
    ValidInstant(now) && (w.Walked? ==> StepsClassifiable(c, w.steps, now))
  }

  /** `Some(prefix + t)` for `Some(t)`; a failure stays a failure. */
  function Prepend(prefix: seq<RepoCommit>, o: Option<seq<RepoCommit>>): Option<seq<RepoCommit>> {
    match o
    case None => None
    case Some(t) => Some(prefix + t)
  }

  lemma PrependTwice(a: seq<RepoCommit>, b: seq<RepoCommit>, o: Option<seq<RepoCommit>>)
    ensures Prepend(a, Prepend(b, o)) == Prepend(a + b, o)
    ensures Prepend([], o) == o
  {
    if o.Some? {
      assert a + (b + o.value) == (a + b) + o.value;
      assert [] + o.value == o.value;
    }
  }

  /**
   * The body of the walk loop, step by step: keep what `include` says, stop
   * after the first `abort`, and give up on the whole repository (`?` on
   * `find_commit`) at the first id that does not resolve.
   */
  function WalkSteps(c: Classifier, now: Instant, repo: Repo, steps: seq<WalkStep>): Option<seq<RepoCommit>>
    requires StepsClassifiable(c, steps, now)
    decreases |steps|
  {
    if steps == [] then Some([])
    else match steps[0]
      case Unresolvable => None
      case Resolved(commit) =>
        var r := Classify(c, commit, now);
        var kept := if r.0 then [RepoCommitFrom(repo, commit)] else [];
        if r.1 then Some(kept)
        else Prepend(kept, WalkSteps(c, now, repo, steps[1..]))
  }

  /** What one repository yields: nothing on any failure, else its walk's commits. */
  function ScanRepo(c: Classifier, now: Instant, repo: Repo, w: RepoWalk): Option<seq<RepoCommit>>
    requires WalkClassifiable(c, w, now)
  {
    match w
    case Unavailable(_) => None
    case Walked(steps) => WalkSteps(c, now, repo, steps)
  }

  function Contribution(c: Classifier, now: Instant, repo: Repo, w: RepoWalk): seq<RepoCommit>
    requires WalkClassifiable(c, w, now)
  {
    ScanRepo(c, now, repo, w).GetOr([])
  }

  // A reference description of the walk, independent of the loop's shape.

  /** Whether evaluating this step ends the walk. */
  predicate Stops(c: Classifier, now: Instant, s: WalkStep)
    requires ValidInstant(now) && (s.Resolved? ==> ValidOffset(s.commit.time))
  {
    s.Unresolvable? || Classify(c, s.commit, now).1
  }

  /** The steps the loop evaluates: everything up to and including the first that ends it. */
  function Evaluated(c: Classifier, now: Instant, steps: seq<WalkStep>): (e: seq<WalkStep>)
    requires StepsClassifiable(c, steps, now)
    ensures OffsetsValid(e, now)
    ensures |e| <= |steps| && e == steps[..|e|]
    ensures forall k :: 0 <= k < |e| - 1 ==> !Stops(c, now, e[k])
    ensures |e| < |steps| ==> e != [] && Stops(c, now, e[|e| - 1])
    decreases |steps|
  {
    if steps == [] then []
    else if Stops(c, now, steps[0]) then [steps[0]]
    else [steps[0]] + Evaluated(c, now, steps[1..])
  }

  /** The kept commits among some steps, in order. */
  function KeptOf(c: Classifier, now: Instant, repo: Repo, steps: seq<WalkStep>): seq<RepoCommit>
    requires OffsetsValid(steps, now)
    decreases |steps|
  {
    if steps == [] then []
    else
      var rest := KeptOf(c, now, repo, steps[1..]);
      if steps[0].Resolved? && Classify(c, steps[0].commit, now).0
      then [RepoCommitFrom(repo, steps[0].commit)] + rest
      else rest
  }

  /**
   * The walk yields nothing if an unresolvable id is among the evaluated
   * steps, and otherwise exactly the kept commits among them, in walk order.
   */
  lemma {:induction false} WalkStepsCharacterized(c: Classifier, now: Instant, repo: Repo, steps: seq<WalkStep>)
    requires StepsClassifiable(c, steps, now)
    ensures var e := Evaluated(c, now, steps);
            WalkSteps(c, now, repo, steps) ==
              if Unresolvable in e then None else Some(KeptOf(c, now, repo, e))
    decreases |steps|
  {
    if steps == [] {
    } else if steps[0].Unresolvable? {
      assert Evaluated(c, now, steps) == [Unresolvable];
    } else {
      var e := Evaluated(c, now, steps);
      var head := steps[0];
      var r := Classify(c, head.commit, now);
      var kept := if r.0 then [RepoCommitFrom(repo, head.commit)] else [];
      if r.1 {
        assert e == [head];
        assert KeptOf(c, now, repo, e) == kept + KeptOf(c, now, repo, e[1..]);
        assert e[1..] == [];
      } else {
        var tail := Evaluated(c, now, steps[1..]);
        WalkStepsCharacterized(c, now, repo, steps[1..]);
        assert e == [head] + tail;
        assert e[1..] == tail;
        assert KeptOf(c, now, repo, e) == kept + KeptOf(c, now, repo, tail);
        assert Unresolvable in e <==> Unresolvable in tail;
        PrependTwice(kept, [], if Unresolvable in tail then None else Some(KeptOf(c, now, repo, tail)));
      }
    }
  }

  /**
   * The steps after an aborting commit the loop reaches never matter: they
   * are not evaluated, whatever they hold, offsets out of range included.
   */
  lemma {:induction false} StepsAfterAbortIgnored(c: Classifier, now: Instant, repo: Repo,
                                                  prefix: seq<WalkStep>, commit: Commit,
                                                  rest1: seq<WalkStep>, rest2: seq<WalkStep>)
    requires ValidInstant(now) && ValidOffset(commit.time) && Classify(c, commit, now).1
    requires StepsClassifiable(c, prefix + [Resolved(commit)], now)
    ensures StepsClassifiable(c, prefix + [Resolved(commit)] + rest1, now)
    ensures StepsClassifiable(c, prefix + [Resolved(commit)] + rest2, now)
    ensures WalkSteps(c, now, repo, prefix + [Resolved(commit)] + rest1)
         == WalkSteps(c, now, repo, prefix + [Resolved(commit)] + rest2)
    decreases |prefix|
  {
    var s0 := prefix + [Resolved(commit)];
    var s1 := prefix + [Resolved(commit)] + rest1;
    var s2 := prefix + [Resolved(commit)] + rest2;
    if prefix != [] {
      assert s0[1..] == prefix[1..] + [Resolved(commit)];
      assert s1[1..] == prefix[1..] + [Resolved(commit)] + rest1;
      assert s2[1..] == prefix[1..] + [Resolved(commit)] + rest2;
      assert s1[0] == s0[0] && s2[0] == s0[0];
      if prefix[0].Resolved? && !Classify(c, prefix[0].commit, now).1 {
        StepsAfterAbortIgnored(c, now, repo, prefix[1..], commit, rest1, rest2);
      }
    } else {
      assert s1[0] == s0[0] && s2[0] == s0[0];
    }
  }

  /** An unresolvable id reached before any abort discards the whole repository. */
  lemma {:induction false} UnresolvableDiscardsRepo(c: Classifier, now: Instant, repo: Repo,
                                                    prefix: seq<WalkStep>, rest: seq<WalkStep>)
    requires OffsetsValid(prefix, now)
    requires forall k :: 0 <= k < |prefix| ==> prefix[k].Resolved? && !Classify(c, prefix[k].commit, now).1
    ensures StepsClassifiable(c, prefix + [Unresolvable] + rest, now)
    ensures WalkSteps(c, now, repo, prefix + [Unresolvable] + rest) == None
    decreases |prefix|
  {
    var s := prefix + [Unresolvable] + rest;
    if prefix != [] {
      assert s[1..] == prefix[1..] + [Unresolvable] + rest;
      assert prefix[0] in prefix && s[0] == prefix[0];
      assert OffsetsValid(prefix[1..], now) by {
        forall x | x in prefix[1..] ensures x in prefix { }
      }
      UnresolvableDiscardsRepo(c, now, repo, prefix[1..], rest);
    } else {
      assert s[0] == Unresolvable;
    }
  }

  /** Everything a walk yields was kept by the classifier, and so is at most `age` days old. */
  lemma {:induction false} WalkYieldsKeptOnly(c: Classifier, now: Instant, repo: Repo, steps: seq<WalkStep>)
    requires StepsClassifiable(c, steps, now)
    requires WalkSteps(c, now, repo, steps).Some?
    ensures forall x :: x in WalkSteps(c, now, repo, steps).value ==>
              exists k :: 0 <= k < |steps| && steps[k].Resolved? && ValidOffset(steps[k].commit.time)
                && Classify(c, steps[k].commit, now).0 && x == RepoCommitFrom(repo, steps[k].commit)
    decreases |steps|
  {
    if steps != [] && steps[0].Resolved? && !Classify(c, steps[0].commit, now).1 {
      WalkYieldsKeptOnly(c, now, repo, steps[1..]);
      forall x | x in WalkSteps(c, now, repo, steps).value
        ensures exists k :: 0 <= k < |steps| && steps[k].Resolved? && ValidOffset(steps[k].commit.time)
                  && Classify(c, steps[k].commit, now).0 && x == RepoCommitFrom(repo, steps[k].commit)
      {
        var r := Classify(c, steps[0].commit, now);
        var kept := if r.0 then [RepoCommitFrom(repo, steps[0].commit)] else [];
        var tail := WalkSteps(c, now, repo, steps[1..]).value;
        if x in kept {
          assert steps[0].Resolved? && Classify(c, steps[0].commit, now).0;
        } else {
          assert x in tail;
          var k :| 0 <= k < |steps[1..]| && steps[1..][k].Resolved? && ValidOffset(steps[1..][k].commit.time)
                   && Classify(c, steps[1..][k].commit, now).0 && x == RepoCommitFrom(repo, steps[1..][k].commit);
          assert steps[k + 1] == steps[1..][k];
        }
      }
    }
  }

  /**
   * `MultiRepoHistory::from`'s per-repository closure: open, create and seed
   * the walk (any failure yields `None`), then the `for` loop over the ids
   * with `?` on `find_commit` and `break` on `abort`; an empty result is
   * also `None`.
   */
  method ScanRepository(repo: Repo, w: RepoWalk, c: Classifier, now: Instant)
    returns (r: Option<seq<RepoCommit>>)
    requires WalkClassifiable(c, w, now)
    ensures r.GetOr([]) == Contribution(c, now, repo, w)
    ensures r.Some? ==> r.value != []
  {
    if w.Unavailable? {
      return None;
    }
    var steps := w.steps;
    var commits: seq<RepoCommit> := [];
    var i := 0;
    assert steps[0..] == steps;
    PrependTwice([], [], WalkSteps(c, now, repo, steps));
    while i < |steps|
      invariant 0 <= i <= |steps|
      invariant StepsClassifiable(c, steps[i..], now)
      invariant WalkSteps(c, now, repo, steps) == Prepend(commits, WalkSteps(c, now, repo, steps[i..]))
    {
      assert steps[i..][0] == steps[i] && steps[i..][1..] == steps[i + 1..];
      if steps[i].Unresolvable? {
        return None;
      }
      var commit := steps[i].commit;
      var verdict := Classify(c, commit, now);
      ghost var before, kept := commits, if verdict.0 then [RepoCommitFrom(repo, commit)] else [];
      if verdict.0 {
        commits := commits + [RepoCommitFrom(repo, commit)];
      }
      if verdict.1 {
        assert commits == before + kept;
        break;
      }
      PrependTwice(before, kept, WalkSteps(c, now, repo, steps[i + 1..]));
      i := i + 1;
    }
    if commits == [] {
      return None;
    }
    return Some(commits);
  }

  // ---------------------------------------------------------------------
  // The merged history
  // ---------------------------------------------------------------------

  /** git2's order on `Time`: by seconds, then by offset. */
  predicate TimeLe(a: Time, b: Time) {
    a.seconds < b.seconds || (a.seconds == b.seconds && a.offsetMinutes <= b.offsetMinutes)
  }

  /** Newest first: no commit is followed by a strictly newer one. */
  predicate SortedNewestFirst(s: seq<RepoCommit>) {
    forall i, j :: 0 <= i < j < |s| ==> TimeLe(s[j].timestamp, s[i].timestamp)
  }

  function InsertNewestFirst(x: RepoCommit, s: seq<RepoCommit>): (r: seq<RepoCommit>)
    requires SortedNewestFirst(s)
    ensures SortedNewestFirst(r)
    ensures multiset(r) == multiset(s) + multiset{x}
    decreases |s|
  {
    if s == [] || TimeLe(s[0].timestamp, x.timestamp) then
      InsertAtFront(x, s);
      [x] + s
    else
      var t := InsertNewestFirst(x, s[1..]);
      assert s == [s[0]] + s[1..];
      BelowHead(s[0], x, s[1..], t);
      [s[0]] + t
  }

  lemma InsertAtFront(x: RepoCommit, s: seq<RepoCommit>)
    requires SortedNewestFirst(s)
    requires s == [] || TimeLe(s[0].timestamp, x.timestamp)
    ensures SortedNewestFirst([x] + s)
  {
    var r := [x] + s;
    forall i, j | 0 <= i < j < |r| ensures TimeLe(r[j].timestamp, r[i].timestamp) {
      if i == 0 {
        assert r[j] == s[j - 1];
        assert TimeLe(s[j - 1].timestamp, s[0].timestamp);
      } else {
        assert r[i] == s[i - 1] && r[j] == s[j - 1];
      }
    }
  }

  /** The head `h` of a newest-first list stays ahead of everything inserted after it. */
  lemma BelowHead(h: RepoCommit, x: RepoCommit, rest: seq<RepoCommit>, t: seq<RepoCommit>)
    requires SortedNewestFirst([h] + rest) && SortedNewestFirst(t)
    requires !TimeLe(h.timestamp, x.timestamp)
    requires multiset(t) == multiset(rest) + multiset{x}
    ensures SortedNewestFirst([h] + t)
  {
    forall k | 0 <= k < |t| ensures TimeLe(t[k].timestamp, h.timestamp) {
      assert t[k] in multiset(t);
      if t[k] != x {
        assert t[k] in multiset(rest);
        var j :| 0 <= j < |rest| && rest[j] == t[k];
        assert ([h] + rest)[0] == h && ([h] + rest)[j + 1] == rest[j];
      }
    }
    var r := [h] + t;
    forall i, j | 0 <= i < j < |r| ensures TimeLe(r[j].timestamp, r[i].timestamp) {
      if i == 0 {
        assert r[j] == t[j - 1];
      } else {
        assert r[i] == t[i - 1] && r[j] == t[j - 1];
      }
    }
  }

  /**
   * The final `sort_unstable_by` on the timestamp, reversed. Any order of
   * equal timestamps is allowed by the source; this one is insertion order.
   */
  function SortNewestFirst(s: seq<RepoCommit>): (r: seq<RepoCommit>)
    ensures SortedNewestFirst(r)
    ensures multiset(r) == multiset(s)
    decreases |s|
  {
    if s == [] then []
    else
      assert s == [s[0]] + s[1..];
      InsertNewestFirst(s[0], SortNewestFirst(s[1..]))
  }

  predicate AllClassifiable(c: Classifier, walks: seq<RepoWalk>, now: Instant) {
    forall k :: 0 <= k < |walks| ==> WalkClassifiable(c, walks[k], now)
  }

  /** Every slice of classifiable walks is classifiable. */
  lemma ClassifiableSlice(c: Classifier, walks: seq<RepoWalk>, now: Instant, lo: nat, hi: nat)
    requires lo <= hi <= |walks| && AllClassifiable(c, walks, now)
    ensures AllClassifiable(c, walks[lo..hi], now)
  {
    var ws := walks[lo..hi];
    forall j | 0 <= j < |ws| ensures WalkClassifiable(c, ws[j], now) {
      assert ws[j] == walks[lo + j];
    }
  }

  /** The `map` over the repositories: what each one yields, in the order given. */
  function Contributions(c: Classifier, now: Instant, repos: seq<Repo>, walks: seq<RepoWalk>): (cs: seq<seq<RepoCommit>>)
    requires |walks| == |repos| && AllClassifiable(c, walks, now)
    ensures |cs| == |repos|
    decreases |repos|
  {
    if repos == [] then []
    else
      assert AllClassifiable(c, walks[1..], now) by {
        forall j | 0 <= j < |walks[1..]| ensures WalkClassifiable(c, walks[1..][j], now) {
          assert walks[1..][j] == walks[j + 1];
        }
      }
      [Contribution(c, now, repos[0], walks[0])] + Contributions(c, now, repos[1..], walks[1..])
  }

  lemma {:induction false} ContributionsAt(c: Classifier, now: Instant, repos: seq<Repo>, walks: seq<RepoWalk>, k: nat)
    requires |walks| == |repos| && AllClassifiable(c, walks, now) && k < |repos|
    ensures Contributions(c, now, repos, walks)[k] == Contribution(c, now, repos[k], walks[k])
    decreases k
  {
    if k > 0 {
      ClassifiableSlice(c, walks, now, 1, |walks|);
      assert walks[1..|walks|] == walks[1..];
      ContributionsAt(c, now, repos[1..], walks[1..], k - 1);
      assert repos[1..][k - 1] == repos[k] && walks[1..][k - 1] == walks[k];
    }
  }

  /** The `flatten` of the per-repository results. */
  function Flatten<T>(ss: seq<seq<T>>): seq<T>
    decreases |ss|
  {
    if ss == [] then [] else ss[0] + Flatten(ss[1..])
  }

  lemma {:induction false} FlattenAppend<T>(a: seq<seq<T>>, b: seq<seq<T>>)
    ensures Flatten(a + b) == Flatten(a) + Flatten(b)
    decreases |a|
  {
    if a == [] {
      assert a + b == b;
    } else {
      FlattenAppend(a[1..], b);
      assert (a + b)[0] == a[0] && (a + b)[1..] == a[1..] + b;
    }
  }

  lemma {:induction false} FlattenMembers<T>(ss: seq<seq<T>>, x: T)
    ensures x in Flatten(ss) <==> exists k :: 0 <= k < |ss| && x in ss[k]
    decreases |ss|
  {
    if ss != [] {
      FlattenMembers(ss[1..], x);
      if x in Flatten(ss[1..]) {
        var k :| 0 <= k < |ss[1..]| && x in ss[1..][k];
        assert ss[k + 1] == ss[1..][k];
      }
      if exists k :: 0 <= k < |ss| && x in ss[k] {
        var k :| 0 <= k < |ss| && x in ss[k];
        if k > 0 {
          assert ss[1..][k - 1] == ss[k];
        }
      }
    }
  }

  /** All repositories' commits, repository by repository, before the sort. */
  function Collected(c: Classifier, now: Instant, repos: seq<Repo>, walks: seq<RepoWalk>): seq<RepoCommit>
    requires |walks| == |repos| && AllClassifiable(c, walks, now)
  {
    Flatten(Contributions(c, now, repos, walks))
  }

  /** The per-repository results of a slice of the repositories are that slice of the results. */
  lemma ContributionsSlice(c: Classifier, now: Instant, repos: seq<Repo>, walks: seq<RepoWalk>, lo: nat, hi: nat)
    requires |walks| == |repos| && AllClassifiable(c, walks, now) && lo <= hi <= |repos|
    ensures AllClassifiable(c, walks[lo..hi], now)
    ensures Contributions(c, now, repos[lo..hi], walks[lo..hi]) == Contributions(c, now, repos, walks)[lo..hi]
  {
    ClassifiableSlice(c, walks, now, lo, hi);
    var rs, ws := repos[lo..hi], walks[lo..hi];
    var part := Contributions(c, now, rs, ws);
    var all := Contributions(c, now, repos, walks);
    forall j | 0 <= j < |part| ensures part[j] == all[lo + j] {
      ContributionsAt(c, now, rs, ws, j);
      ContributionsAt(c, now, repos, walks, lo + j);
      assert rs[j] == repos[lo + j] && ws[j] == walks[lo + j];
    }
  }

  /** Repositories after `k` add after those before it: the merge is a concatenation. */
  lemma CollectedSplit(c: Classifier, now: Instant, repos: seq<Repo>, walks: seq<RepoWalk>, k: nat)
    requires |walks| == |repos| && k < |repos| && AllClassifiable(c, walks, now)
    ensures AllClassifiable(c, walks[..k], now) && AllClassifiable(c, walks[k + 1..], now)
    ensures Collected(c, now, repos, walks)
         == Collected(c, now, repos[..k], walks[..k])
          + Contribution(c, now, repos[k], walks[k])
          + Collected(c, now, repos[k + 1..], walks[k + 1..])
  {
    var all := Contributions(c, now, repos, walks);
    ContributionsSlice(c, now, repos, walks, 0, k);
    ContributionsSlice(c, now, repos, walks, k + 1, |repos|);
    assert repos[0..k] == repos[..k] && walks[0..k] == walks[..k] && all[0..k] == all[..k];
    assert repos[k + 1..|repos|] == repos[k + 1..] && walks[k + 1..|walks|] == walks[k + 1..];
    assert all[k + 1..|all|] == all[k + 1..];
    ContributionsAt(c, now, repos, walks, k);
    FlattenSplit(all, k);
  }

  /** Flattening around one element: what comes before it, then it, then what comes after. */
  lemma FlattenSplit<T>(ss: seq<seq<T>>, k: nat)
    requires k < |ss|
    ensures Flatten(ss) == Flatten(ss[..k]) + ss[k] + Flatten(ss[k + 1..])
  {
    var pre, tail := ss[..k], ss[k..];
    assert ss == pre + tail;
    assert tail[0] == ss[k] && tail[1..] == ss[k + 1..];
    FlattenAppend(pre, tail);
  }

  /**
   * Failure isolation: what a repository contributes depends on its own walk
   * only, and a repository that cannot be walked contributes nothing while
   * the others contribute exactly what they would have.
   */
  lemma FailedRepoContributesNothing(c: Classifier, now: Instant, repos: seq<Repo>, walks: seq<RepoWalk>,
                                     k: nat, f: WalkFailure)
    requires |walks| == |repos| && k < |repos| && ValidInstant(now) && AllClassifiable(c, walks, now)
    ensures AllClassifiable(c, walks[k := Unavailable(f)], now)
    ensures Collected(c, now, repos, walks[k := Unavailable(f)])
         == Collected(c, now, repos[..k], walks[..k]) + Collected(c, now, repos[k + 1..], walks[k + 1..])
  {
    var failed := walks[k := Unavailable(f)];
    forall j | 0 <= j < |failed| ensures WalkClassifiable(c, failed[j], now) {
      if j != k { assert failed[j] == walks[j]; }
    }
    CollectedSplit(c, now, repos, failed, k);
    assert failed[..k] == walks[..k] && failed[k + 1..] == walks[k + 1..];
  }

  /** A commit is in the merge exactly when some repository contributed it. */
  lemma CollectedMembers(c: Classifier, now: Instant, repos: seq<Repo>, walks: seq<RepoWalk>, x: RepoCommit)
    requires |walks| == |repos| && AllClassifiable(c, walks, now)
    ensures x in Collected(c, now, repos, walks)
        <==> exists k :: 0 <= k < |repos| && x in Contribution(c, now, repos[k], walks[k])
  {
    var all := Contributions(c, now, repos, walks);
    FlattenMembers(all, x);
    forall k | 0 <= k < |repos| ensures all[k] == Contribution(c, now, repos[k], walks[k]) {
      ContributionsAt(c, now, repos, walks, k);
    }
  }

  /** Peeling repository `i` off the repositories still to scan. */
  lemma CollectedStep(c: Classifier, now: Instant, repos: seq<Repo>, walks: seq<RepoWalk>, i: nat)
    requires |walks| == |repos| && i < |repos| && AllClassifiable(c, walks, now)
    ensures AllClassifiable(c, walks[i..], now) && AllClassifiable(c, walks[i + 1..], now)
    ensures Collected(c, now, repos[i..], walks[i..])
         == Contribution(c, now, repos[i], walks[i]) + Collected(c, now, repos[i + 1..], walks[i + 1..])
  {
    var rs, ws := repos[i..], walks[i..];
    assert rs[0] == repos[i] && ws[0] == walks[i];
    assert rs[1..] == repos[i + 1..] && ws[1..] == walks[i + 1..];
    forall k | 0 <= k < |ws| ensures WalkClassifiable(c, ws[k], now) {
      assert ws[k] == walks[i + k];
    }
    var ws1 := walks[i + 1..];
    forall k | 0 <= k < |ws1| ensures WalkClassifiable(c, ws1[k], now) {
      assert ws1[k] == walks[i + 1 + k];
    }
  }

  /** A history of commits across multiple repositories. */
  datatype MultiRepoHistory = MultiRepoHistory(repos: seq<Repo>, commits: seq<RepoCommit>)

  /**
   * `MultiRepoHistory::from`, one repository after the other: the
   * repositories are returned as given, and the commits are all
   * repositories' contributions, sorted newest first.
   */
  method HistoryFrom(repos: seq<Repo>, walks: seq<RepoWalk>, c: Classifier, now: Instant)
    returns (h: MultiRepoHistory)
    requires |walks| == |repos| && AllClassifiable(c, walks, now)
    ensures h.repos == repos
    ensures multiset(h.commits) == multiset(Collected(c, now, repos, walks))
    ensures SortedNewestFirst(h.commits)
  {
    var commits: seq<RepoCommit> := [];
    var i := 0;
    assert repos[0..] == repos && walks[0..] == walks;
    while i < |repos|
      invariant 0 <= i <= |repos|
      invariant AllClassifiable(c, walks[i..], now)
      invariant Collected(c, now, repos, walks) == commits + Collected(c, now, repos[i..], walks[i..])
    {
      CollectedStep(c, now, repos, walks, i);
      ghost var rest := Collected(c, now, repos[i + 1..], walks[i + 1..]);
      var found := ScanRepository(repos[i], walks[i], c, now);
      if found.Some? {
        assert (commits + found.value) + rest == commits + (found.value + rest);
        commits := commits + found.value;
      } else {
        assert [] + rest == rest;
      }
      i := i + 1;
    }
    assert repos[i..] == [] && walks[i..] == [];
    assert commits + [] == commits;
    h := MultiRepoHistory(repos, SortNewestFirst(commits));
  }

  // ---------------------------------------------------------------------
  // `RepoCommit::time_as_str`: "YYYY-MM-DD HH:MM" at the commit's own
  // offset, followed by the offset written as `{:+02}` hours and `{:02}`
  // remaining minutes.
  // ---------------------------------------------------------------------

  /**
   * The offset as written: hours rounded toward zero with a forced sign and
   * no zero padding beyond one digit, then the remaining minutes, which carry
   * their own '-' when the offset is negative and not whole hours.
   */
  function OffsetText(minutes: int): string {
    var hours := TruncDiv(minutes * 60, 3600);
    FormatInt(hours, 2, true) + FormatInt(minutes - hours * 60, 2, false)
  }

  function DateText(f: LocalFields): string {
    FormatInt(f.date.year, 4, false) + "-" + FormatInt(f.date.month, 2, false) + "-"
      + FormatInt(f.date.day, 2, false) + " " + FormatInt(f.hour, 2, false) + ":"
      + FormatInt(f.minute, 2, false)
  }

  function TimeAsStr(rc: RepoCommit): string
    requires ValidOffset(rc.timestamp)
  {
    DateText(Fields(AsDateTime(rc.timestamp))) + " " + OffsetText(rc.timestamp.offsetMinutes)
  }

  lemma DateTextSingleLine(f: LocalFields)
    ensures '\n' !in DateText(f)
  {
    FormatIntNoNewline(f.date.year, 4, false);
    FormatIntNoNewline(f.date.month, 2, false);
    FormatIntNoNewline(f.date.day, 2, false);
    FormatIntNoNewline(f.hour, 2, false);
    FormatIntNoNewline(f.minute, 2, false);
  }

  lemma OffsetTextSingleLine(minutes: int)
    ensures '\n' !in OffsetText(minutes)
  {
    var hours := TruncDiv(minutes * 60, 3600);
    FormatIntNoNewline(hours, 2, true);
    FormatIntNoNewline(minutes - hours * 60, 2, false);
  }

  /** The timestamp text is one line: it never contains a '\n'. */
  lemma TimeAsStrSingleLine(rc: RepoCommit)
    requires ValidOffset(rc.timestamp)
    ensures '\n' !in TimeAsStr(rc)
  {
    DateTextSingleLine(Fields(AsDateTime(rc.timestamp)));
    OffsetTextSingleLine(rc.timestamp.offsetMinutes);
  }

  /** Position of the first '-' at or after `i`, or |s|. */
  function DashFrom(s: string, i: nat): (p: nat)
    requires i <= |s|
    ensures i <= p <= |s|
    ensures p < |s| ==> s[p] == '-'
    ensures forall k :: i <= k < p ==> s[k] != '-'
    decreases |s| - i
  {
    if i == |s| || s[i] == '-' then i else DashFrom(s, i + 1)
  }

  /**
   * Reads an offset back from `OffsetText`: a second '-' starts a negative
   * minutes part; otherwise the minutes are the last two characters.
   */
  function ParseOffsetText(s: string): int {
    if |s| < 3 then 0
    else
      var p := DashFrom(s, 1);
      var split := if p < |s| then p else |s| - 2;
      ParseInt(s[..split]) * 60 + ParseInt(s[split..])
  }

  lemma DigitsSmall(n: nat)
    ensures n < 10 ==> |Digits(n)| == 1
    ensures 10 <= n < 100 ==> |Digits(n)| == 2
  {
    if n >= 10 {
      assert Digits(n) == Digits(n / 10) + [DigitChar(n % 10)];
    }
  }

  lemma FormatIntNoDash(v: int, width: nat, forceSign: bool)
    ensures forall k :: 1 <= k < |FormatInt(v, width, forceSign)| ==> FormatInt(v, width, forceSign)[k] != '-'
    ensures v >= 0 ==> '-' !in FormatInt(v, width, forceSign)
  {
    var magnitude := if v < 0 then -v else v;
    var sign := if v < 0 then "-" else if forceSign then "+" else "";
    var padded := ZeroPad(Digits(magnitude), if width >= |sign| then width - |sign| else 0);
    ZeroPadParse(Digits(magnitude), if width >= |sign| then width - |sign| else 0);
    assert FormatInt(v, width, forceSign) == sign + padded;
    assert forall k :: 0 <= k < |padded| ==> IsDigit(padded[k]);
  }

  /** Hours whose only '-' is their sign, then minutes starting with '-': the second '-' splits them. */
  lemma ParseSplitAtDash(h: string, m: string)
    requires |h| >= 2 && m != [] && m[0] == '-'
    requires forall k :: 1 <= k < |h| ==> h[k] != '-'
    ensures ParseOffsetText(h + m) == ParseInt(h) * 60 + ParseInt(m)
  {
    var s := h + m;
    forall k | 1 <= k < |h| ensures s[k] != '-' {
      assert s[k] == h[k];
    }
    assert s[|h|] == '-';
    assert DashFrom(s, 1) == |h|;
    assert s[..|h|] == h && s[|h|..] == m;
  }

  /** Hours whose only '-' is their sign, then two dash-free minute digits: the last two characters are the minutes. */
  lemma ParseSplitLastTwo(h: string, m: string)
    requires |h| >= 2 && |m| == 2 && '-' !in m
    requires forall k :: 1 <= k < |h| ==> h[k] != '-'
    ensures ParseOffsetText(h + m) == ParseInt(h) * 60 + ParseInt(m)
  {
    var s := h + m;
    forall k | 1 <= k < |s| ensures s[k] != '-' {
      if k < |h| { assert s[k] == h[k]; } else { assert s[k] == m[k - |h|]; }
    }
    assert DashFrom(s, 1) == |s|;
    assert s[..|s| - 2] == h && s[|s| - 2..] == m;
  }

  /** The offset, odd as it is written, is never ambiguous: it reads back exactly. */
  lemma ParseOffsetTextRoundTrip(minutes: int)
    ensures ParseOffsetText(OffsetText(minutes)) == minutes
  {
    var hours := TruncDiv(minutes * 60, 3600);
    var rest := minutes - hours * 60;
    assert -60 < rest < 60;
    var h := FormatInt(hours, 2, true);
    var m := FormatInt(rest, 2, false);
    assert OffsetText(minutes) == h + m;
    ParseFormatInt(hours, 2, true);
    ParseFormatInt(rest, 2, false);
    FormatIntNoDash(hours, 2, true);
    FormatIntNoDash(rest, 2, false);
    if rest < 0 {
      assert m[0] == '-';
      ParseSplitAtDash(h, m);
    } else {
      DigitsSmall(rest);
      assert |m| == 2;
      ParseSplitLastTwo(h, m);
    }
  }

  /** Whole-hour offsets east: "+200" for two hours, "+1000" for ten. */
  lemma OffsetTextEast()
    ensures OffsetText(120) == "+200"
  {
  }

  /** A half-hour offset west writes its minutes with their own sign: "-5-30". */
  lemma OffsetTextWestHalfHour()
    ensures OffsetText(-330) == "-5-30"
  {
    assert TruncDiv(-330 * 60, 3600) == -5;
    assert Digits(5) == "5";
    assert Digits(30) == Digits(3) + "0" == "30";
    assert FormatInt(-5, 2, true) == "-5";
    assert FormatInt(-30, 2, false) == "-30";
  }

  /** Under an hour west, the hours round to "+0": "+0-30". */
  lemma OffsetTextWestUnderAnHour()
    ensures OffsetText(-30) == "+0-30"
  {
    assert TruncDiv(-30 * 60, 3600) == 0;
    assert Digits(0) == "0";
    assert Digits(30) == Digits(3) + "0" == "30";
    assert FormatInt(0, 2, true) == "+0";
    assert FormatInt(-30, 2, false) == "-30";
  }
}
