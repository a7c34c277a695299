/** Healing a file behind a `.bak` backup, with any number of heals in flight. `applyAndValidate` has one await,
    so a heal is two atomic stretches: `Begin` (back up, write) and `Finish` (validate, keep or revert). */
module PatchManager {
  import opened Prelude

  type Files = map<string, string>

  function Backup(path: string): string {
    path + ".bak"
  }

  // ---- One heal, as a function of the files ----

  /** What `writeFileSync` did; a throw may have left a partial file. `renameSync` throws outside the `try`. */
  datatype Write = RenameThrew | Written | WriteThrew(left: Option<string>)

  /** What came of the audit; `KeptThrew` is an `unlinkSync` of the backup that throws inside the `try`. */
  datatype Verdict = Clean | CleanThrew | StillBroken | AuditThrew

  datatype Status = Idle | Awaiting | Done(healed: bool) | Rejected

  function BackedUp(files: Files, path: string): Files {
    if path in files then (files - {path})[Backup(path) := files[path]] else files
  }

  function Reverted(files: Files, path: string): Files {
    if Backup(path) in files then (files - {Backup(path)})[path := files[Backup(path)]] else files
  }

  function Begin(files: Files, path: string, content: string, w: Write): (Files, Status) {
    match w
    case RenameThrew => (files, if path in files then Rejected else Idle)
    case Written => (BackedUp(files, path)[path := content], Awaiting)
    case WriteThrew(None) => (Reverted(BackedUp(files, path), path), Done(false))
    case WriteThrew(Some(c)) => (Reverted(BackedUp(files, path)[path := c], path), Done(false))
  }

  function Finish(files: Files, path: string, v: Verdict): (Files, Status) {
    if v == Clean || (v == CleanThrew && Backup(path) !in files) then (files - {Backup(path)}, Done(true))
    else (Reverted(files, path), Done(false))
  }

  // ---- The code, over a file system it changes in place ----

  class Disk {
    var files: Files

    method Rename(from: string, to: string)
      requires from in files && from != to
      modifies this
      ensures files == (old(files) - {from})[to := old(files)[from]]
    {
      var content := files[from];
      files := files - {from};
      files := files[to := content];
    }

    method Unlink(path: string)
      requires path in files
      modifies this
      ensures files == old(files) - {path}
    {
      files := files - {path};
    }
  }

  class Healer {
    const disk: Disk

    constructor (disk: Disk)
      ensures this.disk == disk
    {
      this.disk := disk;
    }

    /** `applyAndValidate` up to its await; a write that throws is caught and reverted at once. */
    method ApplyUntilAudit(path: string, content: string, w: Write) returns (status: Status)
      requires w == RenameThrew ==> path in disk.files
      modifies disk
      ensures (disk.files, status) == Begin(old(disk.files), path, content, w)
    {
      BackupDiffers(path);
      if path in disk.files {
        if w == RenameThrew {
          return Rejected;
        }
        disk.Rename(path, Backup(path));
      }
      match w {
        case Written =>
          disk.files := disk.files[path := content];
          status := Awaiting;
        case WriteThrew(left) =>
          if left.Some? {
            disk.files := disk.files[path := left.value];
          }
          Revert(path);
          status := Done(false);
      }
    }

    method ValidateAndSettle(path: string, v: Verdict) returns (status: Status)
      modifies disk
      ensures (disk.files, status) == Finish(old(disk.files), path, v)
    {
      if v.Clean? || v.CleanThrew? {
        if Backup(path) in disk.files {
          if v.CleanThrew? {
            Revert(path);
            return Done(false);
          }
          disk.Unlink(Backup(path));
        }
        assert disk.files == old(disk.files) - {Backup(path)};
        status := Done(true);
      } else {
        Revert(path);
        status := Done(false);
      }
    }

    method Revert(path: string)
      modifies disk
      ensures disk.files == Reverted(old(disk.files), path)
    {
      BackupDiffers(path);
      if Backup(path) in disk.files {
        if path in disk.files {
          disk.Unlink(path);
        }
        disk.Rename(Backup(path), path);
      }
    }
  }

  lemma BackupDiffers(path: string)
    ensures Backup(path) != path
  {
    assert |Backup(path)| == |path| + 4;
  }

  lemma BackupInjective(p: string, q: string)
    requires Backup(p) == Backup(q)
    ensures p == q
  {
    assert |Backup(p)| == |p| + 4 && |Backup(q)| == |q| + 4;
    assert Backup(p)[..|p|] == p && Backup(q)[..|q|] == q;
  }

  // ---- One heal on its own: what each stretch does to each path ----

  ghost predicate SameBeside(path: string, files: Files, after: Files) {
    forall q | q != path && q != path + ".bak" :: (q in files <==> q in after) && (q in files ==> files[q] == after[q])
  }

  /** Up to the audit: the target's content is set aside as its backup and the new content written; a backup that cannot
      be made changes nothing; and a write that throws puts back what the backup holds, the target's own content or, if
      it was missing, that of an old backup. */
  lemma BegunExactly(files: Files, path: string, content: string, w: Write)
    ensures var (after, status), bak := Begin(files, path, content, w), path + ".bak";
            && SameBeside(path, files, after)
            && match w
               case RenameThrew => after == files && (path in files ==> status == Rejected)
               case Written =>
                 && status == Awaiting && path in after && after[path] == content
                 && (bak in after <==> path in files || bak in files)
                 && (bak in after ==> after[bak] == if path in files then files[path] else files[bak])
               case WriteThrew(left) =>
                 && status == Done(false) && bak !in after
                 && (path in after <==> path in files || bak in files || left.Some?)
                 && (path in after ==>
                      after[path] == if path in files then files[path] else if bak in files then files[bak] else left.value)
  {
    BackupDiffers(path);
  }

  /** After the audit: a heal is confirmed when its audit is clean and its backup, if any, could be removed; otherwise the
      target is what the backup holds, if there is one; and no backup stays behind. */
  lemma EndedExactly(files: Files, path: string, v: Verdict)
    ensures var (after, status), bak := Finish(files, path, v), path + ".bak";
            var confirmed := v == Clean || (v == CleanThrew && bak !in files);
            && status == Done(confirmed) && bak !in after && SameBeside(path, files, after)
            && (if !confirmed && bak in files then path in after && after[path] == files[bak]
                else (path in files <==> path in after) && (path in files ==> after[path] == files[path]))
  {
    BackupDiffers(path);
  }

  // ---- One heal on its own: exactly when a failed heal leaves no trace ----

  lemma FailedHealRestoresExactly(files: Files, path: string, content: string, v: Verdict)
    requires v == StillBroken || v == AuditThrew
    ensures Finish(Begin(files, path, content, Written).0, path, v).0 == files <==> path in files && Backup(path) !in files
  {
    BackupDiffers(path);
    var after := Finish(Begin(files, path, content, Written).0, path, v).0;
    if path in files && Backup(path) !in files {
      assert after == files;
    } else if path !in files {
      assert path in after;
    } else {
      assert Backup(path) !in after;
    }
  }

  lemma FailedWriteRestoresExactly(files: Files, path: string, content: string, left: Option<string>)
    ensures Begin(files, path, content, WriteThrew(left)).0 == files
       <==> Backup(path) !in files && (path in files || left.None?)
  {
    BackupDiffers(path);
    var after := Begin(files, path, content, WriteThrew(left)).0;
    if Backup(path) in files {
      assert Backup(path) !in after;
    } else if path in files {
      assert after == files;
    }
  }

  /** A confirmed heal changes its target only, exactly when no stale backup was lying there. */
  lemma ConfirmedHealTouchesTargetOnly(files: Files, path: string, content: string)
    ensures Finish(Begin(files, path, content, Written).0, path, Clean).0 == files[path := content] <==> Backup(path) !in files
  {
    BackupDiffers(path);
    var after := Finish(Begin(files, path, content, Written).0, path, Clean).0;
    assert Backup(path) !in after;
    if Backup(path) !in files {
      assert after == files[path := content];
    }
  }

  // ---- Any number of heals in flight ----

  datatype Heal = Heal(path: string, content: string)

  datatype State = State(files: Files, status: seq<Status>)

  datatype Event = Start(who: nat, write: Write) | Resume(who: nat, verdict: Verdict)

  /** One atomic stretch of one heal; an event whose heal is not at that point changes nothing. */
  function Step(heals: seq<Heal>, s: State, e: Event): (r: State)
    requires |s.status| == |heals|
    ensures |r.status| == |heals|
  {
    if e.who >= |heals| then s
    else
      var h := heals[e.who];
      match e
      case Start(i, w) =>
        if s.status[i] != Idle then s
        else
          var (files, status) := Begin(s.files, h.path, h.content, w);
          State(files, s.status[i := status])
      case Resume(i, v) =>
        if s.status[i] != Awaiting then s
        else
          var (files, status) := Finish(s.files, h.path, v);
          State(files, s.status[i := status])
  }

  function Run(heals: seq<Heal>, s: State, es: seq<Event>): (r: State)
    requires |s.status| == |heals|
    ensures |r.status| == |heals|
    decreases |es|
  {
    if es == [] then s else Run(heals, Step(heals, s, es[0]), es[1..])
  }

  function Initial(heals: seq<Heal>, files: Files): State {
    State(files, seq(|heals|, i => Idle))
  }

  predicate Distinct(heals: seq<Heal>) {
    forall i, j | 0 <= i < j < |heals| :: heals[i].path != heals[j].path
  }

  /** Every target exists and has no stale backup. */
  predicate Ready(heals: seq<Heal>, files: Files) {
    forall i | 0 <= i < |heals| :: heals[i].path in files && Backup(heals[i].path) !in files
  }

  /** What a heal in a given status has made of its two paths. */
  predicate Settled(h: Heal, files0: Files, files: Files, status: Status)
    requires h.path in files0
  {
    && h.path in files
    && files[h.path] == (if status == Awaiting || status == Done(true) then h.content else files0[h.path])
    && (Backup(h.path) in files <==> status == Awaiting)
    && (status == Awaiting ==> files[Backup(h.path)] == files0[h.path])
  }

  predicate Touched(heals: seq<Heal>, path: string) {
    exists i | 0 <= i < |heals| :: path == heals[i].path || path == Backup(heals[i].path)
  }

  ghost predicate Invariant(heals: seq<Heal>, files0: Files, s: State)
    requires Ready(heals, files0)
  {
    && |s.status| == |heals|
    && (forall i | 0 <= i < |heals| :: Settled(heals[i], files0, s.files, s.status[i]))
    && (forall path | !Touched(heals, path) :: (path in s.files <==> path in files0) && (path in files0 ==> s.files[path] == files0[path]))
  }

  /** The paths of different heals never meet: a backup name of one is not the target of another. */
  lemma Apart(heals: seq<Heal>, files0: Files, i: nat, j: nat)
    requires Distinct(heals) && Ready(heals, files0) && i < |heals| && j < |heals| && i != j
    ensures heals[i].path != heals[j].path && heals[i].path != Backup(heals[j].path)
    ensures Backup(heals[i].path) != Backup(heals[j].path) && Backup(heals[i].path) != heals[j].path
  {
    if Backup(heals[i].path) == Backup(heals[j].path) {
      BackupInjective(heals[i].path, heals[j].path);
    }
  }

  ghost predicate SameElsewhere(h: Heal, files: Files, files': Files) {
    forall path | path != h.path && path != Backup(h.path) ::
      (path in files <==> path in files') && (path in files ==> files[path] == files'[path])
  }

  lemma BeginSettles(h: Heal, files0: Files, files: Files, w: Write)
    requires h.path in files0 && Settled(h, files0, files, Idle)
    ensures var (files', status) := Begin(files, h.path, h.content, w);
            Settled(h, files0, files', status) && SameElsewhere(h, files, files')
  {
    BackupDiffers(h.path);
  }

  lemma FinishSettles(h: Heal, files0: Files, files: Files, v: Verdict)
    requires h.path in files0 && Settled(h, files0, files, Awaiting)
    ensures var (files', status) := Finish(files, h.path, v);
            Settled(h, files0, files', status) && SameElsewhere(h, files, files')
  {
    BackupDiffers(h.path);
  }

  lemma StepTouchesOwnPaths(heals: seq<Heal>, files0: Files, s: State, e: Event)
    requires Ready(heals, files0) && |s.status| == |heals| && e.who < |heals|
    requires Settled(heals[e.who], files0, s.files, s.status[e.who])
    ensures var s' := Step(heals, s, e);
            && Settled(heals[e.who], files0, s'.files, s'.status[e.who]) && SameElsewhere(heals[e.who], s.files, s'.files)
            && forall j | 0 <= j < |heals| && j != e.who :: s'.status[j] == s.status[j]
  {
    match e
    case Start(i, w) =>
      if s.status[i] == Idle {
        BeginSettles(heals[i], files0, s.files, w);
      }
    case Resume(i, v) =>
      if s.status[i] == Awaiting {
        FinishSettles(heals[i], files0, s.files, v);
      }
  }

  lemma StepKeepsInvariant(heals: seq<Heal>, files0: Files, s: State, e: Event)
    requires Distinct(heals) && Ready(heals, files0) && Invariant(heals, files0, s)
    ensures Invariant(heals, files0, Step(heals, s, e))
  {
    hide Step, Backup;
    if e.who < |heals| {
      var s' := Step(heals, s, e);
      StepTouchesOwnPaths(heals, files0, s, e);
      forall j | 0 <= j < |heals|
        ensures Settled(heals[j], files0, s'.files, s'.status[j])
      {
        if j != e.who {
          Apart(heals, files0, e.who, j);
        }
      }
      forall path | !Touched(heals, path)
        ensures (path in s'.files <==> path in files0) && (path in files0 ==> s'.files[path] == files0[path])
      {
        assert path != heals[e.who].path && path != Backup(heals[e.who].path);
      }
    } else {
      StepOfNoOne(heals, s, e);
    }
  }

  lemma StepOfNoOne(heals: seq<Heal>, s: State, e: Event)
    requires |s.status| == |heals| <= e.who
    ensures Step(heals, s, e) == s
  {
  }

  lemma {:induction false} RunKeepsInvariant(heals: seq<Heal>, files0: Files, s: State, es: seq<Event>)
    requires Distinct(heals) && Ready(heals, files0) && Invariant(heals, files0, s)
    ensures Invariant(heals, files0, Run(heals, s, es))
    decreases |es|
  {
    if es != [] {
      StepKeepsInvariant(heals, files0, s, es[0]);
      RunKeepsInvariant(heals, files0, Step(heals, s, es[0]), es[1..]);
    }
  }

  /** Every heal that has returned left its file as it said, and the original otherwise. */
  predicate Honoured(heals: seq<Heal>, files0: Files, s: State)
    requires |s.status| == |heals| && Ready(heals, files0)
  {
    forall i | 0 <= i < |heals| && s.status[i].Done? ::
      && heals[i].path in s.files
      && s.files[heals[i].path] == (if s.status[i].healed then heals[i].content else files0[heals[i].path])
  }

  /** `files0` with the content of every confirmed heal among the first `n`. */
  function Healed(heals: seq<Heal>, files0: Files, status: seq<Status>, n: nat): Files
    requires n <= |heals| == |status|
  {
    if n == 0 then files0
    else
      var rest := Healed(heals, files0, status, n - 1);
      if status[n - 1] == Done(true) then rest[heals[n - 1].path := heals[n - 1].content] else rest
  }

  lemma {:induction false} HealedAt(heals: seq<Heal>, files0: Files, status: seq<Status>, n: nat, path: string)
    requires n <= |heals| == |status| && Distinct(heals) && Ready(heals, files0)
    ensures Healed(heals, files0, status, n).Keys == files0.Keys
    ensures path in files0 && (forall i | 0 <= i < n :: heals[i].path != path || status[i] != Done(true))
            ==> Healed(heals, files0, status, n)[path] == files0[path]
    ensures forall i | 0 <= i < n && heals[i].path == path && status[i] == Done(true)
            :: Healed(heals, files0, status, n)[path] == heals[i].content
  {
    if n > 0 {
      HealedAt(heals, files0, status, n - 1, path);
      assert heals[n - 1].path in files0;
    }
  }

  /** In every interleaving on distinct, existing targets without stale backups, once no heal is in flight the
      disk is the original one with exactly the confirmed contents in place: no backup, no other path. */
  lemma QuietRunLeavesConfirmedHealsOnly(heals: seq<Heal>, files0: Files, es: seq<Event>)
    requires Distinct(heals) && Ready(heals, files0)
    ensures Honoured(heals, files0, Run(heals, Initial(heals, files0), es))
    ensures var s := Run(heals, Initial(heals, files0), es);
            Awaiting !in s.status ==> s.files == Healed(heals, files0, s.status, |heals|)
  {
    var s := Run(heals, Initial(heals, files0), es);
    RunKeepsInvariant(heals, files0, Initial(heals, files0), es);
    forall i | 0 <= i < |heals|
      ensures Settled(heals[i], files0, s.files, s.status[i])
    {
    }
    if Awaiting !in s.status {
      var healed := Healed(heals, files0, s.status, |heals|);
      forall path
        ensures path in s.files <==> path in healed
        ensures path in s.files ==> s.files[path] == healed[path]
      {
        QuietPath(heals, files0, s, path);
      }
      assert s.files.Keys == healed.Keys;
    }
  }

  lemma QuietPath(heals: seq<Heal>, files0: Files, s: State, path: string)
    requires Distinct(heals) && Ready(heals, files0) && Invariant(heals, files0, s) && Awaiting !in s.status
    ensures var healed := Healed(heals, files0, s.status, |heals|);
            (path in s.files <==> path in healed) && (path in s.files ==> s.files[path] == healed[path])
  {
    HealedAt(heals, files0, s.status, |heals|, path);
    if Touched(heals, path) {
      var i :| 0 <= i < |heals| && (path == heals[i].path || path == Backup(heals[i].path));
      assert Settled(heals[i], files0, s.files, s.status[i]) && s.status[i] in s.status;
      if path == heals[i].path {
        assert forall j | 0 <= j < |heals| && j != i :: heals[j].path != path;
      }
    }
  }

  /** Both heals have reported failure, and all that is left of them is the first one's content in place of the
      original. */
  predicate OriginalLost(heals: seq<Heal>, files0: Files, i: nat, j: nat, s: State)
    requires |s.status| == |heals| && i < |heals| && j < |heals|
  {
    && s.status[i] == s.status[j] == Done(false)
    && s.files == files0[heals[i].path := heals[i].content]
  }

  /** Distinct targets are needed: two heals of one file have a run after which both report failure and the file
      holds the first one's content, the original being gone with the overwritten backup. */
  lemma {:induction false} SharedTargetLosesOriginal(heals: seq<Heal>, files0: Files, i: nat, j: nat)
    requires Ready(heals, files0) && i < |heals| && j < |heals| && i != j
    requires heals[i].path == heals[j].path
    ensures exists es: seq<Event> :: OriginalLost(heals, files0, i, j, Run(heals, Initial(heals, files0), es))
  {
    var es := [Start(i, Written), Start(j, Written), Resume(i, StillBroken), Resume(j, StillBroken)];
    var p := heals[i].path;
    BackupDiffers(p);
    var s0 := Initial(heals, files0);
    var s1 := Step(heals, s0, es[0]);
    var s2 := Step(heals, s1, es[1]);
    var s3 := Step(heals, s2, es[2]);
    var s4 := Step(heals, s3, es[3]);
    assert s2.files[Backup(p)] == heals[i].content;
    assert s3.files == files0[p := heals[i].content];
    assert s4.files == s3.files && s4.status[i] == Done(false);
    FourSteps(heals, s0, es);
    assert OriginalLost(heals, files0, i, j, Run(heals, s0, es));
  }

  lemma FourSteps(heals: seq<Heal>, s: State, es: seq<Event>)
    requires |s.status| == |heals| && |es| == 4
    ensures Run(heals, s, es) == Step(heals, Step(heals, Step(heals, Step(heals, s, es[0]), es[1]), es[2]), es[3])
  {
    hide Step;
    assert es[3..][1..] == [] && es[2..][1..] == es[3..] && es[1..][1..] == es[2..];
    var s1 := Step(heals, s, es[0]);
    var s2 := Step(heals, s1, es[1]);
    var s3 := Step(heals, s2, es[2]);
    assert Run(heals, s3, es[3..]) == Step(heals, s3, es[3]);
    assert Run(heals, s2, es[2..]) == Run(heals, s3, es[3..]);
    assert Run(heals, s1, es[1..]) == Run(heals, s2, es[2..]);
  }

  /** Heals that share a target would all write what is there already. */
  predicate SharedTargetsUnchanged(heals: seq<Heal>, files0: Files)
    requires Ready(heals, files0)
  {
    forall i, j | 0 <= i < |heals| && 0 <= j < |heals| && i != j && heals[i].path == heals[j].path ::
      heals[i].content == files0[heals[i].path]
  }

  predicate Alone(heals: seq<Heal>, i: nat)
    requires i < |heals|
  {
    forall j | 0 <= j < |heals| && j != i :: heals[j].path != heals[i].path
  }

  /** The target holds the original, and so does its backup if there is one. */
  predicate Steady(path: string, files0: Files, files: Files)
    requires path in files0
  {
    path in files && files[path] == files0[path] && (Backup(path) in files ==> files[Backup(path)] == files0[path])
  }

  /** What every run keeps for one heal. */
  predicate Fine(heals: seq<Heal>, files0: Files, s: State, i: nat)
    requires Ready(heals, files0) && |s.status| == |heals| && i < |heals|
  {
    if Alone(heals, i) then Settled(heals[i], files0, s.files, s.status[i]) else Steady(heals[i].path, files0, s.files)
  }

  lemma StepIsSteady(heals: seq<Heal>, files0: Files, s: State, e: Event)
    requires Ready(heals, files0) && |s.status| == |heals| && e.who < |heals|
    requires var h := heals[e.who]; h.content == files0[h.path] && Steady(h.path, files0, s.files)
    ensures Steady(heals[e.who].path, files0, Step(heals, s, e).files)
  {
    BackupDiffers(heals[e.who].path);
  }

  lemma StepTouchesOnly(heals: seq<Heal>, s: State, e: Event)
    requires |s.status| == |heals| && e.who < |heals|
    ensures var s' := Step(heals, s, e);
            && SameElsewhere(heals[e.who], s.files, s'.files)
            && forall j | 0 <= j < |heals| && j != e.who :: s'.status[j] == s.status[j]
  {
  }

  lemma OtherPathsApart(heals: seq<Heal>, files0: Files, i: nat, j: nat)
    requires Ready(heals, files0) && i < |heals| && j < |heals| && heals[i].path != heals[j].path
    ensures heals[i].path != Backup(heals[j].path) && Backup(heals[i].path) != heals[j].path
    ensures Backup(heals[i].path) != Backup(heals[j].path)
  {
    if Backup(heals[i].path) == Backup(heals[j].path) {
      BackupInjective(heals[i].path, heals[j].path);
    }
  }

  lemma StepKeepsFine(heals: seq<Heal>, files0: Files, s: State, e: Event, i: nat)
    requires Ready(heals, files0) && SharedTargetsUnchanged(heals, files0) && |s.status| == |heals| && i < |heals|
    requires Fine(heals, files0, s, i)
    ensures Fine(heals, files0, Step(heals, s, e), i)
  {
    hide Step, Backup;
    if e.who >= |heals| {
      StepOfNoOne(heals, s, e);
    } else if heals[e.who].path != heals[i].path {
      StepTouchesOnly(heals, s, e);
      OtherPathsApart(heals, files0, i, e.who);
    } else if Alone(heals, i) {
      StepTouchesOwnPaths(heals, files0, s, e);
    } else {
      var j :| 0 <= j < |heals| && j != i && heals[j].path == heals[i].path;
      var k := if e.who == i then j else i;
      assert heals[e.who].path == heals[k].path && k != e.who;
      StepIsSteady(heals, files0, s, e);
    }
  }

  lemma {:induction false} RunKeepsFine(heals: seq<Heal>, files0: Files, s: State, es: seq<Event>, i: nat)
    requires Ready(heals, files0) && SharedTargetsUnchanged(heals, files0) && |s.status| == |heals| && i < |heals|
    requires Fine(heals, files0, s, i)
    ensures Fine(heals, files0, Run(heals, s, es), i)
    decreases |es|
  {
    hide Fine, Step;
    if es != [] {
      StepKeepsFine(heals, files0, s, es[0], i);
      RunKeepsFine(heals, files0, Step(heals, s, es[0]), es[1..], i);
    }
  }

  lemma InitialIsFine(heals: seq<Heal>, files0: Files, i: nat)
    requires Ready(heals, files0) && i < |heals|
    ensures Fine(heals, files0, Initial(heals, files0), i)
  {
  }

  /** Fine for all means honoured. */
  lemma FineIsHonoured(heals: seq<Heal>, files0: Files, s: State)
    requires Ready(heals, files0) && SharedTargetsUnchanged(heals, files0) && |s.status| == |heals|
    requires forall i | 0 <= i < |heals| :: Fine(heals, files0, s, i)
    ensures Honoured(heals, files0, s)
  {
    forall i | 0 <= i < |heals| && s.status[i].Done?
      ensures heals[i].path in s.files
      ensures s.files[heals[i].path] == if s.status[i].healed then heals[i].content else files0[heals[i].path]
    {
      assert Fine(heals, files0, s, i);
    }
  }

  /** For heals of existing files without stale backups: all runs honour every result exactly when heals that share a
      target would all write what is there already; so, for heals that change their files, exactly when the targets are
      distinct. */
  lemma RunsAreHonouredExactly(heals: seq<Heal>, files0: Files)
    requires Ready(heals, files0)
    ensures ((forall es: seq<Event> :: Honoured(heals, files0, Run(heals, Initial(heals, files0), es)))
             <==> SharedTargetsUnchanged(heals, files0))
    ensures (forall i | 0 <= i < |heals| :: heals[i].content != files0[heals[i].path])
            ==> (SharedTargetsUnchanged(heals, files0) <==> Distinct(heals))
  {
    hide Run, Fine, Honoured, Backup;
    if SharedTargetsUnchanged(heals, files0) {
      forall es: seq<Event>
        ensures Honoured(heals, files0, Run(heals, Initial(heals, files0), es))
      {
        forall i | 0 <= i < |heals|
          ensures Fine(heals, files0, Run(heals, Initial(heals, files0), es), i)
        {
          InitialIsFine(heals, files0, i);
          RunKeepsFine(heals, files0, Initial(heals, files0), es, i);
        }
        FineIsHonoured(heals, files0, Run(heals, Initial(heals, files0), es));
      }
    } else {
      var i, j :| 0 <= i < |heals| && 0 <= j < |heals| && i != j && heals[i].path == heals[j].path
                  && heals[i].content != files0[heals[i].path];
      SharedTargetLosesOriginal(heals, files0, i, j);
      forall es: seq<Event> | OriginalLost(heals, files0, i, j, Run(heals, Initial(heals, files0), es))
        ensures !Honoured(heals, files0, Run(heals, Initial(heals, files0), es))
      {
        LostIsDishonoured(heals, files0, i, j, Run(heals, Initial(heals, files0), es));
      }
    }
  }

  lemma LostIsDishonoured(heals: seq<Heal>, files0: Files, i: nat, j: nat, s: State)
    requires Ready(heals, files0) && |s.status| == |heals| && i < |heals| && j < |heals|
    requires OriginalLost(heals, files0, i, j, s) && heals[i].content != files0[heals[i].path]
    ensures !Honoured(heals, files0, s)
  {
  }
}
