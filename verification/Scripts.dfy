/** The program's loop against a script of the kernel's choices. Scripts lose
    nothing: every run that ends is the run of some script. */
module Scripts {
  import opened Prelude
  import opened Ring
  import opened Trace
  import C = Conservation

  /** The kernel's side of one round: what it would post before the submit, how
      the submit ends and how many entries it would take, what it would post
      before the program looks, and what it would post later, just before each
      completion of the batch is handled. */
  datatype Round = Round(early: seq<Cqe>, outcome: SubmitOutcome, consumed: nat, posts: seq<Cqe>, late: seq<seq<Cqe>>)

  function Min(a: nat, b: nat): nat {
    if a <= b then a else b
  }

  function Head(late: seq<seq<Cqe>>): seq<Cqe> {
    if late == [] then [] else late[0]
  }

  function Tail(late: seq<seq<Cqe>>): seq<seq<Cqe>> {
    if late == [] then [] else late[1..]
  }

  /** The kernel posts what it may of what it would. */
  function PostAll(cfg: Config, s: System, posts: seq<Cqe>): (t: System)
    ensures t == s.(kernel := t.kernel, posted := t.posted) && s.posted <= t.posted
    decreases |posts|
  {
    if posts == [] then s
    else if Enabled(s, Post(posts[0])) then PostAll(cfg, Apply(cfg, s, Post(posts[0])), posts[1..])
    else PostAll(cfg, s, posts[1..])
  }

  /** Handles the visible completions until the batch or the run ends, while the
      kernel goes on posting; `clock` gives the reading at each completion of the run. */
  function HandleBatch(cfg: Config, s: System, clock: nat -> Instant, late: seq<seq<Cqe>>): System
    decreases s.visible
  {
    var a := Handle(clock(|s.history|));
    if !Enabled(s, a) then s
    else HandleBatch(cfg, Apply(cfg, PostAll(cfg, s, Head(late)), a), clock, Tail(late))
  }

  /** A batch and the `sync` after it. */
  function FinishBatch(cfg: Config, s: System, clock: nat -> Instant, late: seq<seq<Cqe>>): System {
    var handled := HandleBatch(cfg, s, clock, late);
    if Enabled(handled, SyncSubmissions) then Apply(cfg, handled, SyncSubmissions) else handled
  }

  /** The rest of a turn once the submit returned. */
  function PlayBatch(cfg: Config, s: System, posts: seq<Cqe>, clock: nat -> Instant, late: seq<seq<Cqe>>): System
    requires s.phase.Waiting?
  {
    FinishBatch(cfg, Apply(cfg, PostAll(cfg, s, posts), SyncCompletions), clock, late)
  }

  function Submitted(cfg: Config, s: System, round: Round): System
    requires s.phase.Submitting?
  {
    var a := Submit(round.outcome, Min(round.consumed, |s.program.sq.pending|));
    Apply(cfg, PostAll(cfg, s, round.early), a)
  }

  /** One turn of the outer loop. */
  function PlayRound(cfg: Config, s: System, round: Round, clock: nat -> Instant): System {
    if !s.phase.Submitting? then s
    else
      var submitted := Submitted(cfg, s, round);
      if submitted.phase.Waiting? then PlayBatch(cfg, submitted, round.posts, clock, round.late) else submitted
  }

  function Play(cfg: Config, s: System, script: seq<Round>, clock: nat -> Instant): System
    decreases |script|
  {
    if script == [] then s else Play(cfg, PlayRound(cfg, s, script[0], clock), script[1..], clock)
  }

  lemma {:induction false} PlayEnds(cfg: Config, s: System, script: seq<Round>, clock: nat -> Instant)
    requires !s.phase.Submitting?
    ensures Play(cfg, s, script, clock) == s
    decreases |script|
  {
    if script != [] {
      PlayEnds(cfg, s, script[1..], clock);
    }
  }

  // ----- what a round does ------------------------------------------------

  /** The completions the kernel may post one after another, starting from what it owns. */
  predicate Takes(kernel: multiset<UserData>, posts: seq<Cqe>)
    decreases |posts|
  {
    posts == []
    || (Postable(kernel, posts[0])
        && Takes(if posts[0].more then kernel else kernel - multiset{posts[0].tag}, posts[1..]))
  }

  lemma PostFirst(cfg: Config, s: System, c: Cqe, posts: seq<Cqe>)
    requires Enabled(s, Post(c))
    ensures PostAll(cfg, s, [c] + posts) == PostAll(cfg, Apply(cfg, s, Post(c)), posts)
  {
    assert ([c] + posts)[1..] == posts;
  }

  lemma TakesFirst(cfg: Config, s: System, posts: seq<Cqe>)
    requires s.Running() && Takes(s.kernel, posts) && posts != []
    ensures Enabled(s, Post(posts[0]))
    ensures var u := Apply(cfg, s, Post(posts[0]));
            u.Running() && Takes(u.kernel, posts[1..]) && u.posted == s.posted + [posts[0]]
  {
    hide Next;
  }

  /** A kernel that may post everything does, in order. */
  lemma {:induction false} AllArePosted(cfg: Config, s: System, posts: seq<Cqe>)
    requires s.Running() && Takes(s.kernel, posts)
    ensures PostAll(cfg, s, posts).posted == s.posted + posts
    decreases |posts|
  {
    if posts != [] {
      TakesFirst(cfg, s, posts);
      hide Apply;
      hide Enabled;
      hide Takes;
      AllArePosted(cfg, Apply(cfg, s, Post(posts[0])), posts[1..]);
      Regroup(s.posted, posts);
    }
  }

  lemma Regroup<T>(a: seq<T>, b: seq<T>)
    requires b != []
    ensures (a + [b[0]]) + b[1..] == a + b
  {
  }

  // ----- one completion of a batch ----------------------------------------

  lemma HandleUnfolds(cfg: Config, s: System, clock: nat -> Instant, late: seq<seq<Cqe>>)
    requires s.phase.Draining? && 0 < s.visible <= |s.posted|
    ensures Enabled(PostAll(cfg, s, Head(late)), Handle(clock(|s.history|)))
    ensures HandleBatch(cfg, s, clock, late)
            == HandleBatch(cfg, Apply(cfg, PostAll(cfg, s, Head(late)), Handle(clock(|s.history|))), clock, Tail(late))
  {
    hide PostAll;
    hide Apply;
  }

  lemma HandleDone(cfg: Config, s: System, clock: nat -> Instant, late: seq<seq<Cqe>>)
    requires !s.phase.Draining? || s.visible == 0
    ensures HandleBatch(cfg, s, clock, late) == s
    ensures !s.Running() ==> FinishBatch(cfg, s, clock, late) == s
    ensures s.phase.Draining? ==> FinishBatch(cfg, s, clock, late) == Apply(cfg, s, SyncSubmissions)
  {
    hide Apply;
  }

  lemma HandleOne(cfg: Config, s: System, now: Instant)
    requires s.phase.Draining? && 0 < s.visible <= |s.posted|
    ensures var u := Apply(cfg, s, Handle(now));
            && u.history == s.history + [Event(s.posted[0], now)]
            && u.visible == s.visible - 1 && u.posted == s.posted[1..]
            && !u.phase.Submitting? && !u.phase.Waiting?
  {
    hide Next;
  }

  /** The history `h` has grown by the first `n` of `batch`, in order. */
  predicate HandledSince(h: seq<Event>, h': seq<Event>, batch: seq<Cqe>, n: nat, clock: nat -> Instant) {
    && n <= |batch| && |h'| == |h| + n && h <= h'
    && forall k :: 0 <= k < n ==> h'[|h| + k] == Event(batch[k], clock(|h| + k))
  }

  lemma HandledStep(h: seq<Event>, h': seq<Event>, batch: seq<Cqe>, n: nat, clock: nat -> Instant)
    requires batch != [] && HandledSince(h + [Event(batch[0], clock(|h|))], h', batch[1..], n, clock)
    ensures HandledSince(h, h', batch, n + 1, clock)
  {
    var h1 := h + [Event(batch[0], clock(|h|))];
    forall k | 0 <= k < n + 1 ensures h'[|h| + k] == Event(batch[k], clock(|h| + k)) {
      if k == 0 {
        assert h'[|h|] == h1[|h|];
      } else {
        assert h'[|h1| + (k - 1)] == Event(batch[1..][k - 1], clock(|h1| + (k - 1)));
      }
    }
  }

  /** A batch is handled from its first completion on, to its end unless the run ends. */
  lemma {:induction false} BatchIsHandled(cfg: Config, s: System, clock: nat -> Instant, late: seq<seq<Cqe>>)
      returns (n: nat)
    requires s.phase.Draining? && s.visible <= |s.posted|
    ensures HandledSince(s.history, HandleBatch(cfg, s, clock, late).history, s.posted[..s.visible], n, clock)
    ensures var t := HandleBatch(cfg, s, clock, late);
            t.Running() ==> t.phase.Draining? && n == s.visible && t.visible == 0
    decreases s.visible
  {
    hide PostAll;
    hide Apply;
    hide HandleBatch;
    hide HandledSince;
    if s.visible == 0 {
      n := 0;
      HandleDone(cfg, s, clock, late);
      NothingHandled(s.history, s.posted[..0], clock);
    } else {
      var now, batch := clock(|s.history|), s.posted[..s.visible];
      var posted := PostAll(cfg, s, Head(late));
      HandleUnfolds(cfg, s, clock, late);
      HandleOne(cfg, posted, now);
      var u := Apply(cfg, posted, Handle(now));
      assert posted.posted[..s.visible] == batch && u.posted[..u.visible] == batch[1..];
      if u.phase.Draining? {
        n := BatchIsHandled(cfg, u, clock, Tail(late));
      } else {
        n := 0;
        HandleDone(cfg, u, clock, Tail(late));
        NothingHandled(u.history, batch[1..], clock);
      }
      HandledStep(s.history, HandleBatch(cfg, u, clock, Tail(late)).history, batch, n, clock);
      n := n + 1;
    }
  }

  lemma NothingHandled(h: seq<Event>, batch: seq<Cqe>, clock: nat -> Instant)
    ensures HandledSince(h, h, batch, 0, clock)
  {
  }

  /** A round whose submit did not fail handles every completion the kernel had
      posted by the time the program looked, once each and in order, and then
      submits again, unless one of them ends the run. */
  lemma RoundHandlesItsBatch(cfg: Config, s: System, round: Round, clock: nat -> Instant) returns (n: nat)
    requires s.phase.Submitting? && !round.outcome.Fatal?
    ensures var batch := PostAll(cfg, Submitted(cfg, s, round), round.posts).posted;
            var t := PlayRound(cfg, s, round, clock);
            && HandledSince(s.history, t.history, batch, n, clock)
            && (t.Running() ==> t.phase.Submitting? && n == |batch|)
  {
    var waiting := PostAll(cfg, Submitted(cfg, s, round), round.posts);
    assert waiting.history == s.history && waiting.phase.Waiting?;
    hide HandleBatch;
    hide HandledSince;
    hide PostAll;
    hide Submitted;
    n := BatchIsHandled(cfg, Apply(cfg, waiting, SyncCompletions), clock, round.late);
    assert waiting.posted[..|waiting.posted|] == waiting.posted;
  }

  /** EBUSY does not end a run; any other error does, and nothing is handled. */
  lemma SubmitErrors(cfg: Config, s: System, round: Round, clock: nat -> Instant)
    requires s.phase.Submitting?
    ensures round.outcome.Fatal? ==>
              && PlayRound(cfg, s, round, clock).phase == Failed(false)
              && PlayRound(cfg, s, round, clock).history == s.history
    ensures PlayRound(cfg, s, round.(outcome := Busy), clock) == PlayRound(cfg, s, round.(outcome := Accepted), clock)
  {
    hide PostAll;
    hide PlayBatch;
    assert Submitted(cfg, s, round.(outcome := Busy)) == Submitted(cfg, s, round.(outcome := Accepted));
  }

  // ----- a run that is timed out ends -------------------------------------

  lemma {:induction false} PostsReachable(cfg: Config, s: System, posts: seq<Cqe>)
    requires Reachable(cfg, s)
    ensures Reachable(cfg, PostAll(cfg, s, posts))
    decreases |posts|
  {
    if posts != [] {
      if Enabled(s, Post(posts[0])) {
        C.ReachableStep(cfg, s, Post(posts[0]));
        PostsReachable(cfg, Apply(cfg, s, Post(posts[0])), posts[1..]);
      } else {
        PostsReachable(cfg, s, posts[1..]);
      }
    }
  }

  lemma {:induction false} BatchReachable(cfg: Config, s: System, clock: nat -> Instant, late: seq<seq<Cqe>>)
    requires Reachable(cfg, s) && s.phase.Draining?
    ensures Reachable(cfg, HandleBatch(cfg, s, clock, late))
    ensures HandleBatch(cfg, s, clock, late).program.sq.pending == s.program.sq.pending
    decreases s.visible
  {
    var a := Handle(clock(|s.history|));
    if Enabled(s, a) {
      var posted := PostAll(cfg, s, Head(late));
      PostsReachable(cfg, s, Head(late));
      C.ReachableStep(cfg, posted, a);
      C.ReachableInv(cfg, Apply(cfg, posted, a));
      C.NextRequests(cfg.queues, posted.program, posted.posted[0], a.now);
      var u := Apply(cfg, posted, a);
      hide Next;
      hide PostAll;
      if u.phase.Draining? {
        BatchReachable(cfg, u, clock, Tail(late));
      }
    }
  }

  /** A batch that holds the timeout's completion ends the run. */
  lemma {:induction false} TimeoutEndsBatch(cfg: Config, s: System, k: nat, clock: nat -> Instant, late: seq<seq<Cqe>>)
    requires s.phase.Draining? && k < s.visible <= |s.posted| && s.posted[k].tag.kind.Timeout?
    ensures !HandleBatch(cfg, s, clock, late).Running()
    decreases s.visible
  {
    var posted := PostAll(cfg, s, Head(late));
    var u := Apply(cfg, posted, Handle(clock(|s.history|)));
    hide PostAll;
    assert posted.posted[k] == s.posted[k];
    if k > 0 && u.phase.Draining? {
      assert u.posted[k - 1] == posted.posted[k];
      TimeoutEndsBatch(cfg, u, k - 1, clock, Tail(late));
    }
  }

  /** The kernel posts the timeout's completion before the program looks. */
  predicate TimesOut(round: Round) {
    exists c <- round.posts :: c.tag == TIMEOUT_ENTRY && !c.more
  }

  /** Some round takes everything published, and in that one or a later one the
      timeout expires. */
  predicate TimeoutExpires(cfg: Config, script: seq<Round>) {
    exists i, j :: 0 <= i <= j < |script| && script[i].consumed >= cfg.RingSize() && TimesOut(script[j])
  }

  /** What the kernel would post and owns, it no longer owns afterwards. */
  lemma {:induction false} TimeoutIsPosted(cfg: Config, s: System, posts: seq<Cqe>, c: Cqe)
    requires s.Running() && s.kernel[c.tag] <= 1 && c.tag.kind.Timeout? && !c.more
    requires s.kernel[c.tag] == 0 || c in posts
    ensures PostAll(cfg, s, posts).kernel[c.tag] == 0
    decreases |posts|
  {
    if posts != [] {
      if Enabled(s, Post(posts[0])) {
        TimeoutIsPosted(cfg, Apply(cfg, s, Post(posts[0])), posts[1..], c);
      } else {
        TimeoutIsPosted(cfg, s, posts[1..], c);
      }
    }
  }

  lemma {:induction false} FinalIsPosted(posted: seq<Cqe>, u: UserData) returns (k: nat)
    requires C.Finals(posted, u) > 0
    ensures k < |posted| && posted[k].tag == u
  {
    if !posted[0].more && posted[0].tag == u {
      k := 0;
    } else {
      k := FinalIsPosted(posted[1..], u);
      k := k + 1;
    }
  }

  lemma SubmittedReachable(cfg: Config, s: System, round: Round)
    requires Reachable(cfg, s) && s.phase.Submitting?
    ensures Reachable(cfg, Submitted(cfg, s, round))
    ensures Submitted(cfg, s, round).program.sq.pending
            == s.program.sq.pending[Min(round.consumed, |s.program.sq.pending|)..]
  {
    PostsReachable(cfg, s, round.early);
    C.ReachableStep(cfg, PostAll(cfg, s, round.early),
                    Submit(round.outcome, Min(round.consumed, |s.program.sq.pending|)));
  }

  /** Once the timeout was taken, a round in which it expires ends the run. */
  lemma TimeoutEndsRound(cfg: Config, s: System, round: Round, clock: nat -> Instant)
    requires Reachable(cfg, s) && s.phase.Submitting? && TimesOut(round)
    requires TIMEOUT_ENTRY !in Submitted(cfg, s, round).program.sq.pending
    ensures !PlayRound(cfg, s, round, clock).Running()
  {
    var submitted := Submitted(cfg, s, round);
    if submitted.phase.Waiting? {
      SubmittedReachable(cfg, s, round);
      var waiting := PostAll(cfg, submitted, round.posts);
      PostsReachable(cfg, submitted, round.posts);
      TimeoutWaits(cfg, submitted);
      TimeoutWaits(cfg, waiting);
      var c :| c in round.posts && c.tag == TIMEOUT_ENTRY && !c.more;
      TimeoutIsPosted(cfg, submitted, round.posts, c);
      var k := FinalIsPosted(waiting.posted, TIMEOUT_ENTRY);
      TimeoutEndsBatch(cfg, Apply(cfg, waiting, SyncCompletions), k, clock, round.late);
      hide HandleBatch;
      hide PostAll;
      hide Submitted;
    }
  }

  /** While the program waits, a timeout no longer queued is with the kernel or posted. */
  lemma TimeoutWaits(cfg: Config, s: System)
    requires Reachable(cfg, s) && s.phase.Waiting? && TIMEOUT_ENTRY !in s.program.sq.pending
    ensures s.kernel[TIMEOUT_ENTRY] + C.Finals(s.posted, TIMEOUT_ENTRY) == 1
  {
    C.ReachableInv(cfg, s);
    hide Reachable;
    assert C.Live(s, TIMEOUT_ENTRY) == 1;
    assert TIMEOUT_ENTRY !in s.program.sq.unpublished;
  }

  lemma RoundReachable(cfg: Config, s: System, round: Round, clock: nat -> Instant)
    requires Reachable(cfg, s) && s.phase.Submitting?
    ensures Reachable(cfg, PlayRound(cfg, s, round, clock))
    ensures PlayRound(cfg, s, round, clock).Running()
            && TIMEOUT_ENTRY !in Submitted(cfg, s, round).program.sq.pending ==>
              && PlayRound(cfg, s, round, clock).phase.Submitting?
              && TIMEOUT_ENTRY !in PlayRound(cfg, s, round, clock).program.sq.pending
  {
    var submitted := Submitted(cfg, s, round);
    SubmittedReachable(cfg, s, round);
    if submitted.phase.Waiting? {
      PostsReachable(cfg, submitted, round.posts);
      var waiting := PostAll(cfg, submitted, round.posts);
      C.ReachableStep(cfg, waiting, SyncCompletions);
      var drained := Apply(cfg, waiting, SyncCompletions);
      BatchReachable(cfg, drained, clock, round.late);
      var handled := HandleBatch(cfg, drained, clock, round.late);
      C.ReachableInv(cfg, handled);
      var n := BatchIsHandled(cfg, drained, clock, round.late);
      hide HandleBatch;
      hide PostAll;
      hide Submitted;
      if Enabled(handled, SyncSubmissions) {
        C.ReachableStep(cfg, handled, SyncSubmissions);
      }
    }
  }

  lemma AllTaken(cfg: Config, s: System, round: Round)
    requires Reachable(cfg, s) && s.phase.Submitting? && round.consumed >= cfg.RingSize()
    ensures Submitted(cfg, s, round).program.sq.pending == []
  {
    C.RequestsConserved(cfg, s);
    SubmittedReachable(cfg, s, round);
    hide Reachable;
    hide Submitted;
  }

  /** `i` is the round that takes everything, or negative once it is past. */
  lemma {:induction false} TimeoutEndsFrom(
    cfg: Config, s: System, script: seq<Round>, clock: nat -> Instant, i: int, j: nat)
    requires Reachable(cfg, s) && s.phase.Submitting? && j < |script| && TimesOut(script[j])
    requires if i < 0 then TIMEOUT_ENTRY !in s.program.sq.pending
             else i <= j && script[i].consumed >= cfg.RingSize()
    ensures !Play(cfg, s, script, clock).Running()
    decreases |script|
  {
    hide PlayRound;
    hide Submitted;
    hide TimesOut;
    hide Reachable;
    var t := PlayRound(cfg, s, script[0], clock);
    RoundReachable(cfg, s, script[0], clock);
    SubmittedReachable(cfg, s, script[0]);
    if i == 0 {
      AllTaken(cfg, s, script[0]);
    }
    if t.phase.Submitting? {
      if j == 0 {
        TimeoutEndsRound(cfg, s, script[0], clock);
        assert false;
      } else {
        TimeoutEndsFrom(cfg, t, script[1..], clock, i - 1, j - 1);
      }
    } else {
      PlayEnds(cfg, t, script[1..], clock);
      RoundEndsOrSubmits(cfg, s, script[0], clock);
    }
  }

  lemma RoundEndsOrSubmits(cfg: Config, s: System, round: Round, clock: nat -> Instant)
    requires Reachable(cfg, s) && s.phase.Submitting?
    ensures var t := PlayRound(cfg, s, round, clock); t.Running() ==> t.phase.Submitting?
  {
    if !round.outcome.Fatal? {
      var n := RoundHandlesItsBatch(cfg, s, round, clock);
    }
  }

  /** No script in which the kernel takes everything and then completes the
      timeout leaves the run going. */
  lemma TimeoutEndsRun(cfg: Config, s: System, script: seq<Round>, clock: nat -> Instant)
    requires Reachable(cfg, s) && s.phase.Submitting? && TimeoutExpires(cfg, script)
    ensures !Play(cfg, s, script, clock).Running()
  {
    var i, j :| 0 <= i <= j < |script| && script[i].consumed >= cfg.RingSize() && TimesOut(script[j]);
    TimeoutEndsFrom(cfg, s, script, clock, i, j);
  }

  // ----- scripts cover every run ------------------------------------------

  lemma {:induction false} HistoryGrows(cfg: Config, s: System, actions: seq<Action>)
    requires Exec(cfg, s, actions).Some?
    ensures s.history <= Exec(cfg, s, actions).value.history
    decreases |actions|
  {
    if actions != [] {
      var t := Apply(cfg, s, actions[0]);
      assert s.history <= t.history by { hide Next; }
      hide Apply;
      HistoryGrows(cfg, t, actions[1..]);
    }
  }

  /** The run `actions` leads from `s` to its end `t`, with the clock readings of `clock`. */
  ghost predicate Ends(cfg: Config, s: System, actions: seq<Action>, t: System, clock: nat -> Instant) {
    && Exec(cfg, s, actions) == Some(t) && !t.Running() && s.visible <= |s.posted|
    && forall k :: 0 <= k < |t.history| ==> clock(k) == t.history[k].now
  }

  lemma EndsStep(cfg: Config, s: System, actions: seq<Action>, t: System, clock: nat -> Instant)
    requires s.Running() && Ends(cfg, s, actions, t, clock)
    ensures actions != [] && Enabled(s, actions[0]) && Ends(cfg, Apply(cfg, s, actions[0]), actions[1..], t, clock)
    ensures actions[0].Handle? ==> actions[0].now == clock(|s.history|)
  {
    var u := Apply(cfg, s, actions[0]);
    HistoryGrows(cfg, u, actions[1..]);
    hide Next;
    if actions[0].Handle? {
      assert u.history[|s.history|] == Event(s.posted[0], actions[0].now);
    }
  }

  lemma EndsHere(cfg: Config, s: System, actions: seq<Action>, t: System, clock: nat -> Instant)
    requires !s.Running() && Ends(cfg, s, actions, t, clock)
    ensures s == t
  {
    hide Apply;
  }

  lemma {:induction false} CoverDraining(
    cfg: Config, s: System, actions: seq<Action>, t: System, clock: nat -> Instant)
    returns (late: seq<seq<Cqe>>, script: seq<Round>)
    requires s.phase.Draining? && Ends(cfg, s, actions, t, clock)
    ensures Play(cfg, FinishBatch(cfg, s, clock, late), script, clock) == t
    decreases |actions|
  {
    EndsStep(cfg, s, actions, t, clock);
    DrainingStep(cfg, s, actions[0]);
    hide Apply;
    hide FinishBatch;
    hide Ends;
    var u := Apply(cfg, s, actions[0]);
    match actions[0]
    case Post(c) =>
      late, script := CoverDraining(cfg, u, actions[1..], t, clock);
      if s.visible > 0 {
        LatePost(cfg, s, c, clock, late);
        late := [[c] + Head(late)] + Tail(late);
      } else {
        HandleDone(cfg, u, clock, late);
        script := EarlyPost(cfg, Apply(cfg, s, SyncSubmissions), c, t, clock, script);
        late := [];
        HandleDone(cfg, s, clock, late);
      }
    case Handle(now) =>
      if u.phase.Draining? {
        late, script := CoverDraining(cfg, u, actions[1..], t, clock);
      } else {
        EndsHere(cfg, u, actions[1..], t, clock);
        late, script := [], [];
        HandleDone(cfg, u, clock, late);
      }
      HandleFirst(cfg, s, clock, late);
      late := [[]] + late;
    case SyncSubmissions =>
      late := [];
      HandleDone(cfg, s, clock, late);
      script := CoverSubmitting(cfg, u, actions[1..], t, clock);
  }

  /** What an action does to a batch that is being handled. */
  lemma DrainingStep(cfg: Config, s: System, a: Action)
    requires s.phase.Draining? && Enabled(s, a)
    ensures var u := Apply(cfg, s, a);
            && (a.Post? ==> u.phase.Draining? && u.visible == s.visible)
            && (a.Post? && s.visible == 0 ==>
                  var synced := Apply(cfg, s, SyncSubmissions);
                  && synced.phase.Submitting? && Enabled(synced, a)
                  && Apply(cfg, synced, a) == Apply(cfg, u, SyncSubmissions))
            && (a.Handle? && !u.phase.Draining? ==> !u.Running())
            && (a.SyncSubmissions? ==> u.phase.Submitting?)
  {
    hide Next;
  }

  lemma HandleFirst(cfg: Config, s: System, clock: nat -> Instant, late: seq<seq<Cqe>>)
    requires s.visible <= |s.posted| && Enabled(s, Handle(clock(|s.history|)))
    ensures FinishBatch(cfg, s, clock, [[]] + late)
            == FinishBatch(cfg, Apply(cfg, s, Handle(clock(|s.history|))), clock, late)
  {
    HandleUnfolds(cfg, s, clock, [[]] + late);
    assert Tail([[]] + late) == late;
    assert PostAll(cfg, s, []) == s;
    hide Apply;
    hide PostAll;
    hide HandleBatch;
  }

  lemma LatePost(cfg: Config, s: System, c: Cqe, clock: nat -> Instant, late: seq<seq<Cqe>>)
    requires s.phase.Draining? && 0 < s.visible <= |s.posted| && Enabled(s, Post(c))
    ensures FinishBatch(cfg, s, clock, [[c] + Head(late)] + Tail(late))
            == FinishBatch(cfg, Apply(cfg, s, Post(c)), clock, late)
  {
    var late', u := [[c] + Head(late)] + Tail(late), Apply(cfg, s, Post(c));
    assert Head(late') == [c] + Head(late) && Tail(late') == Tail(late);
    assert u.history == s.history && u.visible == s.visible && u.phase == s.phase && |u.posted| > |s.posted|;
    hide PostAll;
    hide Apply;
    hide HandleBatch;
    PostFirst(cfg, s, c, Head(late));
    HandleUnfolds(cfg, s, clock, late');
    HandleUnfolds(cfg, u, clock, late);
  }

  /** A post just before a round may as well be that round's own. */
  lemma EarlyPost(cfg: Config, s: System, c: Cqe, t: System, clock: nat -> Instant, script: seq<Round>)
    returns (script': seq<Round>)
    requires s.phase.Submitting? && Enabled(s, Post(c)) && !t.Running()
    requires Play(cfg, Apply(cfg, s, Post(c)), script, clock) == t
    ensures script' != [] && Play(cfg, s, script', clock) == t
  {
    assert script != [];
    var first := script[0].(early := [c] + script[0].early);
    script' := [first] + script[1..];
    PostFirst(cfg, s, c, script[0].early);
    hide PostAll;
    hide PlayBatch;
    assert Submitted(cfg, s, first) == Submitted(cfg, Apply(cfg, s, Post(c)), script[0]);
    assert PlayRound(cfg, s, first, clock) == PlayRound(cfg, Apply(cfg, s, Post(c)), script[0], clock);
    assert script'[1..] == script[1..];
  }

  lemma {:induction false} CoverWaiting(
    cfg: Config, s: System, actions: seq<Action>, t: System, clock: nat -> Instant)
    returns (posts: seq<Cqe>, late: seq<seq<Cqe>>, script: seq<Round>)
    requires s.phase.Waiting? && Ends(cfg, s, actions, t, clock)
    ensures Play(cfg, PlayBatch(cfg, s, posts, clock, late), script, clock) == t
    decreases |actions|
  {
    EndsStep(cfg, s, actions, t, clock);
    var u := Apply(cfg, s, actions[0]);
    match actions[0]
    case Post(c) =>
      posts, late, script := CoverWaiting(cfg, u, actions[1..], t, clock);
      PostFirst(cfg, s, c, posts);
      posts := [c] + posts;
    case SyncCompletions =>
      late, script := CoverDraining(cfg, u, actions[1..], t, clock);
      posts := [];
      assert PostAll(cfg, s, []) == s;
  }

  lemma {:induction false} CoverSubmitting(
    cfg: Config, s: System, actions: seq<Action>, t: System, clock: nat -> Instant)
    returns (script: seq<Round>)
    requires s.phase.Submitting? && Ends(cfg, s, actions, t, clock)
    ensures Play(cfg, s, script, clock) == t
    decreases |actions|
  {
    EndsStep(cfg, s, actions, t, clock);
    var u := Apply(cfg, s, actions[0]);
    match actions[0]
    case Post(c) =>
      script := CoverSubmitting(cfg, u, actions[1..], t, clock);
      script := EarlyPost(cfg, s, c, t, clock, script);
    case Submit(outcome, consumed) =>
      var posts, late := [], [];
      if outcome.Fatal? {
        EndsHere(cfg, u, actions[1..], t, clock);
        script := [];
      } else {
        posts, late, script := CoverWaiting(cfg, u, actions[1..], t, clock);
      }
      var first := Round([], outcome, consumed, posts, late);
      SubmitOnly(cfg, s, first);
      hide PlayBatch;
      assert ([first] + script)[1..] == script;
      script := [first] + script;
  }

  lemma SubmitOnly(cfg: Config, s: System, round: Round)
    requires s.phase.Submitting? && round.early == [] && round.consumed <= |s.program.sq.pending|
    ensures Submitted(cfg, s, round) == Apply(cfg, s, Submit(round.outcome, round.consumed))
  {
    assert PostAll(cfg, s, []) == s;
  }

  /** Every run that ends, whatever the kernel did and whenever it did it, is the
      run of some script. */
  lemma ScriptsCoverEveryRun(cfg: Config, t: System) returns (script: seq<Round>, clock: nat -> Instant)
    requires Reachable(cfg, t) && !t.Running()
    ensures Play(cfg, Start(cfg), script, clock) == t
  {
    var actions :| Exec(cfg, Start(cfg), actions) == Some(t);
    clock := (k: nat) => if k < |t.history| then t.history[k].now else 0;
    script := CoverSubmitting(cfg, Start(cfg), actions, t, clock);
  }
}
