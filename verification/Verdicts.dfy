/** The verdict write path: request threads doing a locked read-modify-write with an atomic
    replace, readers opening the file at any moment. */
module Verdicts {
  import opened Common
  import opened Corrections

  /** What a path holds: a whole document, or one that is still being written. */
  datatype File = Whole(c: Sections) | Torn

  /** Where a request thread is. From `Locked` to `Failing` it holds the lock. */
  datatype Phase = Arrived | Locked | Read | Merged | Opened | Written | Replaced | Failing | Released | Done

  datatype Thread = Thread(post: Post, phase: Phase, data: Sections)

  /** `log` are the threads whose replace has happened, in order; `answers` the status codes. */
  datatype State = State(files: map<string, File>, temps: map<nat, File>, lock: Option<nat>,
                         threads: map<nat, Thread>, log: seq<nat>, answers: map<nat, int>)

  datatype Action =
    | Arrive(t: nat, post: Post)
    | Acquire(t: nat)
    | Load(t: nat)
    | MergeVerdict(t: nat)
    | OpenTemp(t: nat)
    | WriteTemp(t: nat)
    | ReplaceFile(t: nat)
    | OsError(t: nat)
    | AnswerError(t: nat, unlinked: bool)
    | Release(t: nat)
    | AnswerOk(t: nat)

  ghost predicate At(s: State, t: nat, phase: Phase) {
    t in s.threads && s.threads[t].phase == phase
  }

  ghost predicate Enabled(s: State, a: Action) {
    match a
    case Arrive(t, _) => t !in s.threads
    case Acquire(t) => At(s, t, Arrived) && s.lock == None
    case Load(t) => At(s, t, Locked)
    case MergeVerdict(t) => At(s, t, Read)
    case OpenTemp(t) => At(s, t, Merged)
    case WriteTemp(t) => At(s, t, Opened)
    case ReplaceFile(t) => At(s, t, Written) && t in s.temps
    case OsError(t) => At(s, t, Merged) || At(s, t, Opened) || At(s, t, Written)
    case AnswerError(t, _) => At(s, t, Failing)
    case Release(t) => At(s, t, Replaced)
    case AnswerOk(t) => At(s, t, Released)
  }

  ghost function Move(s: State, t: nat, phase: Phase): State
    requires t in s.threads
  {
    s.(threads := s.threads[t := s.threads[t].(phase := phase)])
  }

  ghost function Step(s: State, a: Action): State
    requires Enabled(s, a)
  {
    match a
    case Arrive(t, post) => s.(threads := s.threads[t := Thread(post, Arrived, map[])])
    case Acquire(t) => Move(s, t, Locked).(lock := Some(t))
    case Load(t) =>
      // a document that does not parse counts as an empty one
      var th := s.threads[t];
      var data := if th.post.dir in s.files && s.files[th.post.dir].Whole? then s.files[th.post.dir].c else map[];
      s.(threads := s.threads[t := th.(phase := Read, data := data)])
    case MergeVerdict(t) =>
      var th := s.threads[t];
      s.(threads := s.threads[t := th.(phase := Merged, data := Merge(th.data, th.post))])
    case OpenTemp(t) => Move(s, t, Opened).(temps := s.temps[t := Torn])
    case WriteTemp(t) => Move(s, t, Written).(temps := s.temps[t := Whole(s.threads[t].data)])
    case ReplaceFile(t) =>
      Move(s, t, Replaced).(files := s.files[s.threads[t].post.dir := s.temps[t]], temps := s.temps - {t},
                            log := s.log + [t])
    case OsError(t) => Move(s, t, Failing)
    case AnswerError(t, unlinked) =>
      Move(s, t, Done).(lock := None, answers := s.answers[t := 500],
                        temps := if unlinked then s.temps - {t} else s.temps)
    case Release(t) => Move(s, t, Released).(lock := None)
    case AnswerOk(t) => Move(s, t, Done).(answers := s.answers[t := 200])
  }

  ghost predicate Valid(s: State, run: seq<Action>)
    decreases |run|
  {
    run == [] || (Enabled(s, run[0]) && Valid(Step(s, run[0]), run[1..]))
  }

  ghost function Exec(s: State, run: seq<Action>): State
    requires Valid(s, run)
    decreases |run|
  {
    if run == [] then s else Exec(Step(s, run[0]), run[1..])
  }

  /** A server that has just started over a set of whole documents. */
  ghost function Start(files: map<string, Sections>): State {
    State(map d | d in files :: Whole(files[d]), map[], None, map[], [], map[])
  }

  // ---- the ledger -------------------------------------------------------------------

  /** The posts of the logged threads that go to one episode, in order. */
  ghost function PostsTo(threads: map<nat, Thread>, log: seq<nat>, dir: string): seq<Post> {
    if log == [] then []
    else
      var t := log[|log| - 1];
      PostsTo(threads, log[..|log| - 1], dir) +
      if t in threads && threads[t].post.dir == dir then [threads[t].post] else []
  }

  ghost function Original(files: map<string, Sections>, dir: string): Sections {
    if dir in files then files[dir] else map[]
  }

  /** What an episode's corrections should be after the logged posts. */
  ghost function Ledger(files: map<string, Sections>, s: State, dir: string): Sections {
    MergeAll(Original(files, dir), PostsTo(s.threads, s.log, dir))
  }

  ghost predicate Holding(phase: Phase) {
    phase != Arrived && phase != Released && phase != Done
  }

  /** The file of every episode is exactly its ledger, and whole; the thread that holds the
      lock works on that very content; the log lists each thread once, and the answers agree
      with it. */
  ghost predicate Inv(files: map<string, Sections>, s: State) {
    && FilesOk(files, s) && LockOk(s) && LogOk(s)
    && forall t :: t in s.threads ==> ThreadInv(files, s, t, s.threads[t])
  }

  ghost predicate FilesOk(files: map<string, Sections>, s: State) {
    && (forall d :: d in s.files <==> d in files || PostsTo(s.threads, s.log, d) != [])
    && (forall d :: d in s.files ==> s.files[d] == Whole(Ledger(files, s, d)))
  }

  ghost predicate LockOk(s: State) {
    && (forall t :: t in s.threads ==> (Holding(s.threads[t].phase) <==> s.lock == Some(t)))
    && (s.lock.Some? ==> s.lock.value in s.threads)
    && (forall t :: t in s.answers ==> t in s.threads && s.threads[t].phase == Done)
  }

  ghost predicate LogOk(s: State) {
    && (forall t :: t in s.log ==> t in s.threads)
    && (forall i, j :: 0 <= i < j < |s.log| ==> s.log[i] != s.log[j])
  }

  ghost predicate ThreadInv(files: map<string, Sections>, s: State, t: nat, th: Thread) {
    && (th.phase == Read ==> th.data == Ledger(files, s, th.post.dir))
    && (th.phase == Merged || th.phase == Opened || th.phase == Written ==>
          th.data == Merge(Ledger(files, s, th.post.dir), th.post))
    && (th.phase == Written ==> t in s.temps && s.temps[t] == Whole(th.data))
    && (t in s.log <==>
          th.phase == Replaced || th.phase == Released
          || (th.phase == Done && t in s.answers && s.answers[t] == 200))
    && (th.phase == Done ==> t in s.answers && (s.answers[t] == 200 || s.answers[t] == 500))
  }

  lemma {:induction false} PostsSame(threads: map<nat, Thread>, threads': map<nat, Thread>, log: seq<nat>, dir: string)
    requires forall t :: t in log ==> t in threads && t in threads' && threads[t].post == threads'[t].post
    ensures PostsTo(threads, log, dir) == PostsTo(threads', log, dir)
  {
    if log != [] {
      assert log[|log| - 1] in log;
      PostsSame(threads, threads', log[..|log| - 1], dir);
    }
  }

  lemma StartInv(files: map<string, Sections>)
    ensures Inv(files, Start(files))
  {
  }

  /** Steps that leave the log alone leave every ledger alone. */
  lemma LedgersUnchanged(files: map<string, Sections>, s: State, a: Action)
    requires Enabled(s, a) && !a.ReplaceFile? && forall t :: t in s.log ==> t in s.threads
    ensures forall d :: PostsTo(Step(s, a).threads, Step(s, a).log, d) == PostsTo(s.threads, s.log, d)
    ensures forall d :: Ledger(files, Step(s, a), d) == Ledger(files, s, d)
  {
    var n := Step(s, a);
    forall d ensures PostsTo(n.threads, n.log, d) == PostsTo(s.threads, s.log, d) {
      PostsSame(s.threads, n.threads, s.log, d);
    }
  }

  lemma PostsAfterReplace(s: State, t: nat)
    requires Enabled(s, ReplaceFile(t)) && forall u :: u in s.log ==> u in s.threads
    ensures var n, post := Step(s, ReplaceFile(t)), s.threads[t].post;
      forall d :: PostsTo(n.threads, n.log, d) == PostsTo(s.threads, s.log, d) + if d == post.dir then [post] else []
  {
    hide Merge;
    var n, post := Step(s, ReplaceFile(t)), s.threads[t].post;
    assert n.log[..|n.log| - 1] == s.log;
    forall d
      ensures PostsTo(n.threads, n.log, d) == PostsTo(s.threads, s.log, d) + if d == post.dir then [post] else []
    {
      PostsSame(s.threads, n.threads, s.log, d);
    }
  }

  /** A replace adds the thread's post to the ledger of its own episode and to no other. */
  lemma LedgersAfterReplace(files: map<string, Sections>, s: State, t: nat)
    requires Enabled(s, ReplaceFile(t)) && forall u :: u in s.log ==> u in s.threads
    ensures var n, post := Step(s, ReplaceFile(t)), s.threads[t].post;
      && (forall d :: d != post.dir ==> PostsTo(n.threads, n.log, d) == PostsTo(s.threads, s.log, d)
                                        && Ledger(files, n, d) == Ledger(files, s, d))
      && PostsTo(n.threads, n.log, post.dir) == PostsTo(s.threads, s.log, post.dir) + [post]
      && Ledger(files, n, post.dir) == Merge(Ledger(files, s, post.dir), post)
  {
    hide Merge, PostsTo;
    var n, post := Step(s, ReplaceFile(t)), s.threads[t].post;
    PostsAfterReplace(s, t);
    forall d | d != post.dir
      ensures PostsTo(n.threads, n.log, d) == PostsTo(s.threads, s.log, d) && Ledger(files, n, d) == Ledger(files, s, d)
    {
      assert PostsTo(s.threads, s.log, d) + [] == PostsTo(s.threads, s.log, d);
    }
    var posts := PostsTo(s.threads, s.log, post.dir);
    assert (posts + [post])[..|posts|] == posts;
  }

  /** A step moves one thread, and takes or gives back the lock only for that thread. */
  lemma StepOfOneThread(s: State, a: Action)
    requires LockOk(s) && Enabled(s, a)
    ensures var n := Step(s, a);
      && (forall t :: t != a.t ==> (t in n.threads <==> t in s.threads))
      && (forall t :: t != a.t && t in s.threads ==> n.threads[t] == s.threads[t])
      && a.t in n.threads && (Holding(n.threads[a.t].phase) <==> n.lock == Some(a.t))
      && (n.lock == s.lock || (s.lock == None && n.lock == Some(a.t)) || (s.lock == Some(a.t) && n.lock == None))
  {
    hide Merge, LockOk;
    OthersStay(s, a);
    LockMoves(s, a);
  }

  lemma OthersStay(s: State, a: Action)
    requires Enabled(s, a)
    ensures var n := Step(s, a);
      && a.t in n.threads
      && (forall t :: t != a.t ==> (t in n.threads <==> t in s.threads))
      && (forall t :: t != a.t && t in s.threads ==> n.threads[t] == s.threads[t])
  {
    hide Merge;
  }

  lemma LockMoves(s: State, a: Action)
    requires LockOk(s) && Enabled(s, a)
    ensures var n := Step(s, a);
      && a.t in n.threads && (Holding(n.threads[a.t].phase) <==> n.lock == Some(a.t))
      && (n.lock == s.lock || (s.lock == None && n.lock == Some(a.t)) || (s.lock == Some(a.t) && n.lock == None))
  {
    hide Merge;
  }

  lemma OnlyDoneIsAnswered(s: State, a: Action)
    requires LockOk(s) && Enabled(s, a)
    ensures var n := Step(s, a);
      forall t :: t in n.answers ==> t in n.threads && n.threads[t].phase == Done
  {
    hide Merge, Holding;
    var n := Step(s, a);
    forall t | t in n.answers ensures t in n.threads && n.threads[t].phase == Done {
      assert t in s.answers || t == a.t;
    }
  }

  lemma StepKeepsLock(s: State, a: Action)
    requires LockOk(s) && Enabled(s, a)
    ensures LockOk(Step(s, a))
  {
    hide Merge;
    var n := Step(s, a);
    StepOfOneThread(s, a);
    OnlyDoneIsAnswered(s, a);
    hide Step, Enabled;
    forall t | t in n.threads ensures Holding(n.threads[t].phase) <==> n.lock == Some(t) {
      assert t != a.t ==> t in s.threads && n.threads[t] == s.threads[t];
    }
  }

  /** Two states whose ledgers agree. */
  ghost predicate SameLedgers(files: map<string, Sections>, s: State, n: State) {
    && n.log == s.log
    && (forall d :: PostsTo(n.threads, n.log, d) == PostsTo(s.threads, s.log, d))
    && (forall d :: Ledger(files, n, d) == Ledger(files, s, d))
  }

  lemma OtherKeepsLedgers(files: map<string, Sections>, s: State, a: Action)
    requires LogOk(s) && Enabled(s, a) && !a.ReplaceFile?
    ensures SameLedgers(files, s, Step(s, a)) && Step(s, a).files == s.files
  {
    LedgersUnchanged(files, s, a);
    hide PostsTo, Ledger, Merge;
  }

  lemma SameFiles(files: map<string, Sections>, s: State, n: State)
    requires FilesOk(files, s) && SameLedgers(files, s, n) && n.files == s.files
    ensures FilesOk(files, n)
  {
    hide PostsTo, Ledger;
  }

  lemma OtherKeepsFiles(files: map<string, Sections>, s: State, a: Action)
    requires FilesOk(files, s) && LogOk(s) && Enabled(s, a) && !a.ReplaceFile?
    ensures FilesOk(files, Step(s, a)) && LogOk(Step(s, a))
  {
    OtherKeepsLedgers(files, s, a);
    SameFiles(files, s, Step(s, a));
    hide FilesOk, SameLedgers, Merge;
  }

  lemma ReplaceKeepsFiles(files: map<string, Sections>, s: State, t: nat)
    requires FilesOk(files, s) && LogOk(s) && Enabled(s, ReplaceFile(t)) && ThreadInv(files, s, t, s.threads[t])
    ensures FilesOk(files, Step(s, ReplaceFile(t))) && LogOk(Step(s, ReplaceFile(t)))
  {
    hide PostsTo, Ledger, Merge;
    var n, post := Step(s, ReplaceFile(t)), s.threads[t].post;
    LedgersAfterReplace(files, s, t);
    assert n.files == s.files[post.dir := Whole(Merge(Ledger(files, s, post.dir), post))];
    forall d ensures d in n.files <==> d in files || PostsTo(n.threads, n.log, d) != [] {
      if d == post.dir {
        assert PostsTo(n.threads, n.log, d) != [];
      } else {
        assert PostsTo(n.threads, n.log, d) == PostsTo(s.threads, s.log, d);
      }
    }
  }

  lemma LoadKeepsThread(files: map<string, Sections>, s: State, t: nat)
    requires FilesOk(files, s) && Enabled(s, Load(t)) && ThreadInv(files, s, t, s.threads[t]) && LogOk(s)
    ensures ThreadInv(files, Step(s, Load(t)), t, Step(s, Load(t)).threads[t])
  {
    OtherKeepsLedgers(files, s, Load(t));
    var dir := s.threads[t].post.dir;
    if dir !in s.files {
      EmptyLedger(files, s, dir);
    }
    hide PostsTo, Ledger, Merge;
    assert Step(s, Load(t)).threads[t].data == Ledger(files, s, dir);
  }

  lemma ReplaceKeepsThread(files: map<string, Sections>, s: State, t: nat, u: nat)
    requires LockOk(s) && LogOk(s) && Enabled(s, ReplaceFile(t)) && u in s.threads
    requires ThreadInv(files, s, u, s.threads[u])
    ensures ThreadInv(files, Step(s, ReplaceFile(t)), u, Step(s, ReplaceFile(t)).threads[u])
  {
    hide PostsTo, Ledger, Merge;
    assert u in s.log + [t] <==> u in s.log || u == t;
    assert u != t ==> !Holding(s.threads[u].phase);
  }

  lemma StepOfAnotherThread(files: map<string, Sections>, s: State, a: Action, u: nat)
    requires LogOk(s) && Enabled(s, a) && !a.ReplaceFile? && a.t != u
    requires u in s.threads && ThreadInv(files, s, u, s.threads[u])
    ensures u in Step(s, a).threads && ThreadInv(files, Step(s, a), u, Step(s, a).threads[u])
  {
    OtherKeepsLedgers(files, s, a);
    hide PostsTo, Ledger, Merge, LogOk;
    var n := Step(s, a);
    assert Ledger(files, n, s.threads[u].post.dir) == Ledger(files, s, s.threads[u].post.dir);
    hide SameLedgers;
    assert n.threads[u] == s.threads[u] && n.log == s.log;
    assert u in n.answers <==> u in s.answers;
    assert u in s.answers ==> n.answers[u] == s.answers[u];
    assert u in s.temps ==> u in n.temps && n.temps[u] == s.temps[u];
  }

  lemma MergeKeepsThread(files: map<string, Sections>, s: State, t: nat)
    requires LogOk(s) && Enabled(s, MergeVerdict(t)) && ThreadInv(files, s, t, s.threads[t])
    ensures ThreadInv(files, Step(s, MergeVerdict(t)), t, Step(s, MergeVerdict(t)).threads[t])
  {
    OtherKeepsLedgers(files, s, MergeVerdict(t));
    hide PostsTo, Ledger, Merge, LogOk;
  }

  lemma AnswerKeepsThread(files: map<string, Sections>, s: State, a: Action)
    requires LogOk(s) && Enabled(s, a) && (a.AnswerOk? || a.AnswerError?)
    requires ThreadInv(files, s, a.t, s.threads[a.t])
    ensures a.t in Step(s, a).threads && ThreadInv(files, Step(s, a), a.t, Step(s, a).threads[a.t])
  {
    hide PostsTo, Ledger, Merge, LogOk;
  }

  lemma MoveKeepsThread(files: map<string, Sections>, s: State, a: Action)
    requires LogOk(s) && Enabled(s, a) && (a.Acquire? || a.OpenTemp? || a.WriteTemp? || a.OsError? || a.Release?)
    requires ThreadInv(files, s, a.t, s.threads[a.t])
    ensures ThreadInv(files, Step(s, a), a.t, Step(s, a).threads[a.t])
  {
    hide PostsTo, Ledger, Merge;
    OtherKeepsLedgers(files, s, a);
    assert Ledger(files, Step(s, a), s.threads[a.t].post.dir) == Ledger(files, s, s.threads[a.t].post.dir);
  }

  lemma NewThread(files: map<string, Sections>, s: State, t: nat, post: Post)
    requires LogOk(s) && LockOk(s) && t !in s.threads
    ensures ThreadInv(files, Step(s, Arrive(t, post)), t, Step(s, Arrive(t, post)).threads[t])
  {
  }

  lemma EmptyLedger(files: map<string, Sections>, s: State, dir: string)
    requires dir !in files && PostsTo(s.threads, s.log, dir) == []
    ensures Ledger(files, s, dir) == map[]
  {
  }

  lemma StepKeepsInv(files: map<string, Sections>, s: State, a: Action)
    requires Inv(files, s) && Enabled(s, a)
    ensures Inv(files, Step(s, a))
  {
    StepKeepsLock(s, a);
    assert !a.Arrive? ==> a.t in s.threads && ThreadInv(files, s, a.t, s.threads[a.t]);
    if a.ReplaceFile? {
      ReplaceKeepsFiles(files, s, a.t);
    } else {
      OtherKeepsFiles(files, s, a);
    }
    hide FilesOk, LockOk, LogOk, ThreadInv;
    forall u | u in Step(s, a).threads ensures ThreadInv(files, Step(s, a), u, Step(s, a).threads[u]) {
      if u !in s.threads {
        NewThread(files, s, u, a.post);
      } else if a.ReplaceFile? {
        ReplaceKeepsThread(files, s, a.t, u);
      } else if a == Load(u) {
        LoadKeepsThread(files, s, u);
      } else if a.t != u {
        StepOfAnotherThread(files, s, a, u);
      } else if a.MergeVerdict? {
        MergeKeepsThread(files, s, u);
      } else if a.AnswerOk? || a.AnswerError? {
        AnswerKeepsThread(files, s, a);
      } else {
        MoveKeepsThread(files, s, a);
      }
    }
  }

  lemma {:induction false} RunKeepsInv(files: map<string, Sections>, s: State, run: seq<Action>)
    requires Inv(files, s) && Valid(s, run)
    ensures Inv(files, Exec(s, run))
    decreases |run|
  {
    if run != [] {
      StepKeepsInv(files, s, run[0]);
      RunKeepsInv(files, Step(s, run[0]), run[1..]);
    }
  }

  // ---- no lost verdict --------------------------------------------------------------

  /** In every interleaving of requests, and so at every moment a reader may open a file: the
      file is a whole document, the one the posts replaced so far give in their order; every
      post answered 200 is among them exactly once, and none answered 500 is. */
  lemma NoLostVerdict(files: map<string, Sections>, run: seq<Action>)
    requires Valid(Start(files), run)
    ensures var s := Exec(Start(files), run);
      && (forall d :: d in s.files ==> s.files[d] == Whole(Ledger(files, s, d)))
      && (forall d :: d in files ==> d in s.files)
      && (forall t :: t in s.answers && s.answers[t] == 200 ==> t in s.log)
      && (forall t :: t in s.answers && s.answers[t] != 200 ==> t !in s.log)
      && (forall i, j :: 0 <= i < j < |s.log| ==> s.log[i] != s.log[j])
  {
    StartInv(files);
    RunKeepsInv(files, Start(files), run);
    var s := Exec(Start(files), run);
    forall t | t in s.answers ensures t in s.log <==> s.answers[t] == 200 {
      assert ThreadInv(files, s, t, s.threads[t]);
    }
  }

  /** The branch for an unreadable document is never taken, and a failure never touches the
      file. */
  lemma CorruptBranchUnreachable(files: map<string, Sections>, run: seq<Action>, t: nat)
    requires Valid(Start(files), run)
    requires At(Exec(Start(files), run), t, Locked)
    ensures var s := Exec(Start(files), run); var dir := s.threads[t].post.dir;
      && (dir in s.files ==> s.files[dir].Whole?)
      && Step(s, Load(t)).threads[t].data == Ledger(files, s, dir)
  {
    StartInv(files);
    RunKeepsInv(files, Start(files), run);
    var s := Exec(Start(files), run);
    var dir := s.threads[t].post.dir;
    if dir !in s.files {
      assert PostsTo(s.threads, s.log, dir) == [];
    }
  }

  /** Only a replace changes what readers see, and it changes one file in one step from one
      whole document to the next. */
  lemma ReadersSeeWholeSteps(files: map<string, Sections>, s: State, a: Action)
    requires Inv(files, s) && Enabled(s, a)
    ensures !a.ReplaceFile? ==> Step(s, a).files == s.files
    ensures a.ReplaceFile? ==>
              var post := s.threads[a.t].post;
              Step(s, a).files == s.files[post.dir := Whole(Merge(Ledger(files, s, post.dir), post))]
  {
    if a.ReplaceFile? {
      assert ThreadInv(files, s, a.t, s.threads[a.t]);
    }
  }

  /** Two threads are never between taking the lock and giving it back at the same time. */
  lemma OneWriter(files: map<string, Sections>, run: seq<Action>, t: nat, u: nat)
    requires Valid(Start(files), run)
    requires var s := Exec(Start(files), run);
      t in s.threads && u in s.threads && Holding(s.threads[t].phase) && Holding(s.threads[u].phase)
    ensures t == u
  {
    StartInv(files);
    RunKeepsInv(files, Start(files), run);
  }

  /** A run given by the states it goes through. */
  lemma {:induction false} Trace(run: seq<Action>, states: seq<State>)
    requires |states| == |run| + 1
    requires forall i :: 0 <= i < |run| ==> Enabled(states[i], run[i]) && states[i + 1] == Step(states[i], run[i])
    ensures Valid(states[0], run) && Exec(states[0], run) == states[|run|]
    decreases |run|
  {
    if run != [] {
      assert forall i :: 0 <= i < |run[1..]| ==> run[1..][i] == run[i + 1] && states[1..][i] == states[i + 1];
      Trace(run[1..], states[1..]);
    }
  }

  /** The steps of one post that nothing goes wrong for. */
  ghost function PostRun(t: nat, post: Post): seq<Action> {
    [Arrive(t, post), Acquire(t), Load(t)] + [MergeVerdict(t), OpenTemp(t), WriteTemp(t)]
    + [ReplaceFile(t), Release(t), AnswerOk(t)]
  }

  /** A post that finds the lock free and meets no error is filed: it is answered 200, its
      episode's file has the verdict merged in, and no other file changes. */
  lemma LonePostIsFiled(files: map<string, Sections>, s: State, t: nat, post: Post)
    requires Inv(files, s) && s.lock == None && t !in s.threads
    ensures Valid(s, PostRun(t, post))
    ensures var n := Exec(s, PostRun(t, post));
      && t in n.answers && n.answers[t] == 200 && n.lock == None && n.log == s.log + [t]
      && n.files == s.files[post.dir := Whole(Merge(Ledger(files, s, post.dir), post))]
  {
    hide Valid, Exec, Merge, Ledger;
    var data := LoadedData(files, s, post.dir);
    PostLoads(s, t, post);
    var s3 := Exec(s, [Arrive(t, post), Acquire(t), Load(t)]);
    assert s3.threads[t] == Thread(post, Read, data);
    PostWrites(s3, t);
    var s6 := Exec(s3, [MergeVerdict(t), OpenTemp(t), WriteTemp(t)]);
    PostReplaces(s6, t);
    ExecAppend(s3, [MergeVerdict(t), OpenTemp(t), WriteTemp(t)], [ReplaceFile(t), Release(t), AnswerOk(t)]);
    ExecAppend(s, [Arrive(t, post), Acquire(t), Load(t)],
               [MergeVerdict(t), OpenTemp(t), WriteTemp(t)] + [ReplaceFile(t), Release(t), AnswerOk(t)]);
    assert PostRun(t, post)
           == [Arrive(t, post), Acquire(t), Load(t)]
              + ([MergeVerdict(t), OpenTemp(t), WriteTemp(t)] + [ReplaceFile(t), Release(t), AnswerOk(t)]);
  }

  /** An error before the replace is answered 500, gives the lock back and leaves every file
      as it was, whether or not the temporary file is removed. */
  lemma FailedPostIsAnswered(files: map<string, Sections>, s: State, t: nat, unlinked: bool)
    requires Inv(files, s) && (At(s, t, Merged) || At(s, t, Opened) || At(s, t, Written))
    ensures Valid(s, [OsError(t), AnswerError(t, unlinked)])
    ensures var n := Exec(s, [OsError(t), AnswerError(t, unlinked)]);
      && s.lock == Some(t) && n.lock == None && n.answers == s.answers[t := 500]
      && n.files == s.files && n.log == s.log && t !in n.log
  {
    hide Valid, Exec, FilesOk, Ledger, Merge;
    assert ThreadInv(files, s, t, s.threads[t]);
    ErrorRun(s, t, unlinked);
  }

  lemma ErrorRun(s: State, t: nat, unlinked: bool)
    requires At(s, t, Merged) || At(s, t, Opened) || At(s, t, Written)
    ensures Valid(s, [OsError(t), AnswerError(t, unlinked)])
    ensures var n := Exec(s, [OsError(t), AnswerError(t, unlinked)]);
      n.lock == None && n.answers == s.answers[t := 500] && n.files == s.files && n.log == s.log
  {
    hide Valid, Exec;
    var s1 := Step(s, OsError(t));
    var s2 := Step(s1, AnswerError(t, unlinked));
    Trace([OsError(t), AnswerError(t, unlinked)], [s, s1, s2]);
  }

  /** What a request thread reads is its episode's ledger. */
  lemma LoadedData(files: map<string, Sections>, s: State, dir: string) returns (data: Sections)
    requires Inv(files, s)
    ensures data == if dir in s.files && s.files[dir].Whole? then s.files[dir].c else map[]
    ensures data == Ledger(files, s, dir)
  {
    data := if dir in s.files && s.files[dir].Whole? then s.files[dir].c else map[];
    if dir !in s.files {
      assert PostsTo(s.threads, s.log, dir) == [];
    }
  }

  lemma PostLoads(s: State, t: nat, post: Post)
    requires s.lock == None && t !in s.threads
    ensures Valid(s, [Arrive(t, post), Acquire(t), Load(t)])
    ensures var data := if post.dir in s.files && s.files[post.dir].Whole? then s.files[post.dir].c else map[];
      Exec(s, [Arrive(t, post), Acquire(t), Load(t)])
      == s.(threads := s.threads[t := Thread(post, Read, data)], lock := Some(t))
  {
    hide Valid, Exec;
    var s1 := Step(s, Arrive(t, post));
    var s2 := Step(s1, Acquire(t));
    var s3 := Step(s2, Load(t));
    Trace([Arrive(t, post), Acquire(t), Load(t)], [s, s1, s2, s3]);
  }

  lemma PostWrites(s: State, t: nat)
    requires At(s, t, Read)
    ensures Valid(s, [MergeVerdict(t), OpenTemp(t), WriteTemp(t)])
    ensures var th := s.threads[t];
            var data := Merge(th.data, th.post);
      Exec(s, [MergeVerdict(t), OpenTemp(t), WriteTemp(t)])
      == s.(threads := s.threads[t := Thread(th.post, Written, data)], temps := s.temps[t := Whole(data)])
  {
    hide Valid, Exec, Merge;
    var th, data := s.threads[t], Merge(s.threads[t].data, s.threads[t].post);
    var s1 := s.(threads := s.threads[t := Thread(th.post, Merged, data)]);
    var s2 := s.(threads := s.threads[t := Thread(th.post, Opened, data)], temps := s.temps[t := Torn]);
    var s3 := s.(threads := s.threads[t := Thread(th.post, Written, data)], temps := s.temps[t := Whole(data)]);
    assert s1 == Step(s, MergeVerdict(t));
    assert s2 == Step(s1, OpenTemp(t));
    assert s3 == Step(s2, WriteTemp(t));
    Trace([MergeVerdict(t), OpenTemp(t), WriteTemp(t)], [s, s1, s2, s3]);
  }

  lemma PostReplaces(s: State, t: nat)
    requires At(s, t, Written) && t in s.temps
    ensures Valid(s, [ReplaceFile(t), Release(t), AnswerOk(t)])
    ensures var n := Exec(s, [ReplaceFile(t), Release(t), AnswerOk(t)]);
      && n.files == s.files[s.threads[t].post.dir := s.temps[t]] && n.log == s.log + [t]
      && n.lock == None && n.answers == s.answers[t := 200]
  {
    hide Valid, Exec;
    var s1 := Step(s, ReplaceFile(t));
    var s2 := Step(s1, Release(t));
    var s3 := Step(s2, AnswerOk(t));
    Trace([ReplaceFile(t), Release(t), AnswerOk(t)], [s, s1, s2, s3]);
  }

  lemma {:induction false} ExecAppend(s: State, run: seq<Action>, more: seq<Action>)
    requires Valid(s, run) && Valid(Exec(s, run), more)
    ensures Valid(s, run + more) && Exec(s, run + more) == Exec(Exec(s, run), more)
    decreases |run|
  {
    hide Step, Enabled;
    if run == [] {
      assert run + more == more;
    } else {
      ExecAppend(Step(s, run[0]), run[1..], more);
      assert (run + more)[1..] == run[1..] + more;
    }
  }

  /** What the page shows after any run: at an event with a unique key, the last verdict
      that was replaced into its episode's file under that key. */
  lemma PageShowsLastVerdict(files: map<string, Sections>, run: seq<Action>, dir: string, section: string,
                             events: seq<Event>, i: nat)
    requires Valid(Start(files), run) && i < |events| && UniqueKeys(section, events)
    requires dir in Exec(Start(files), run).files
    ensures var s := Exec(Start(files), run);
            var posts, key := PostsTo(s.threads, s.log, dir), ItemKey(section, events[i]);
      && s.files[dir].Whole?
      && var shown := Corrected(section, events, SectionOf(s.files[dir].c, section))[i];
         var plain := Corrected(section, events, SectionOf(Original(files, dir), section))[i];
         shown == match LastVerdict(posts, section, key)
                  case None => plain
                  case Some(v) => plain.(fields := plain.fields[VERDICT := v])
  {
    NoLostVerdict(files, run);
    var s := Exec(Start(files), run);
    LastWithKeySound(section, events, ItemKey(section, events[i]), |events|);
    VerdictsLand(section, events, Original(files, dir), PostsTo(s.threads, s.log, dir), i);
  }
}
