/** What an oversized message or a refused write can do to a run: end one side early, and
    nothing else.  Every run follows a run of the same session without such failures. */
module SyncShadow {
  import opened Basics
  import opened Hashing
  import opened Protocol
  import opened SyncSession
  import opened SyncInvariant

  /** The session over a transport without a size limit and a file that takes every write. */
  function Lenient(c: Session): Session {
    c.(fits := _ => true,
       write := (file: seq<Page>, page: PageData) =>
         Some(if c.write(file, page).Some? then c.write(file, page).value else file))
  }

  predicate AllDelivered(c: Session, log: seq<Message>, n: nat) {
    n <= |log| && forall i :: 0 <= i < n ==> Delivered(c, log[i])
  }

  predicate OriginFollows(c: Session, s: Joint, t: Joint) {
    s.o.OFailed? || (s.o == t.o && s.rRead == t.rRead && AllDelivered(c, s.rLog, s.rRead))
  }

  predicate ReplicaFollows(c: Session, s: Joint, t: Joint) {
    s.r.RFailed? || (s.r == t.r && s.oRead == t.oRead && AllDelivered(c, s.oLog, s.oRead))
  }

  /** `s` agrees with `t` wherever its ends have not failed. */
  predicate Follows(c: Session, s: Joint, t: Joint) {
    && s.oLog == t.oLog && s.rLog == t.rLog && s.file == t.file && s.writes == t.writes
    && OriginFollows(c, s, t) && ReplicaFollows(c, s, t)
    && Written(c, s.writes) == Some(s.file)
  }

  lemma SameComputations(c: Session)
    ensures forall st, msg :: OWaiting(st) ==> OriginReceive(c, st, msg) == OriginReceive(Lenient(c), st, msg)
    ensures forall st, msg :: RWaiting(st) ==> ReplicaReceive(c, st, msg) == ReplicaReceive(Lenient(c), st, msg)
    ensures forall st :: OSending(st) ==> OriginSend(c, st) == OriginSend(Lenient(c), st)
    ensures forall st :: RSending(st) ==> ReplicaSend(c, st) == ReplicaSend(Lenient(c), st)
  {
  }

  /** A step of the origin is matched by the same step, or it is the origin's failure. */
  lemma OriginMatched(c: Session, s: Joint, t: Joint)
    requires Follows(c, s, t) && OriginStep(c, s).Some?
    ensures var s' := OriginStep(c, s).value;
            Follows(c, s', t) || (OriginStep(Lenient(c), t).Some? && Follows(c, s', OriginStep(Lenient(c), t).value))
  {
    SameComputations(c);
  }

  lemma ReplicaMatched(c: Session, s: Joint, t: Joint)
    requires Follows(c, s, t) && ReplicaStep(c, s).Some?
    ensures var s' := ReplicaStep(c, s).value;
            Follows(c, s', t) || (ReplicaStep(Lenient(c), t).Some? && Follows(c, s', ReplicaStep(Lenient(c), t).value))
  {
    SameComputations(c);
    if !RWaiting(s.r) && !RSending(s.r) {
      WriteMatched(c, s, t);
    }
  }

  lemma WriteMatched(c: Session, s: Joint, t: Joint)
    requires Follows(c, s, t) && s.r.RWriting? && s.r.written < |s.r.pages|
    ensures Follows(c, ReplicaWrite(c, s), t) || Follows(c, ReplicaWrite(c, s), ReplicaWrite(Lenient(c), t))
  {
    var page := s.r.pages[s.r.written];
    assert (s.writes + [page])[..|s.writes|] == s.writes;
  }

  /** Every run follows a run of the lenient session. */
  lemma {:induction false} Shadow(c: Session, schedule: seq<Actor>) returns (shadow: seq<Actor>)
    ensures Follows(c, Run(c, schedule), Run(Lenient(c), shadow))
  {
    if schedule == [] {
      shadow := [];
    } else {
      var init, last := schedule[..|schedule| - 1], schedule[|schedule| - 1];
      shadow := Shadow(c, init);
      var s, t := Run(c, init), Run(Lenient(c), shadow);
      if Step(c, s, last).Some? {
        if last.TheOrigin? {
          OriginMatched(c, s, t);
        } else {
          ReplicaMatched(c, s, t);
        }
        if !Follows(c, Step(c, s, last).value, t) {
          assert (shadow + [last])[..|shadow|] == shadow;
          shadow := shadow + [last];
        }
      }
    }
  }

  /** A plan for the lenient session tells what both ends returning Ok means. */
  lemma OkFollowsPlan(c: Session, p: Plan, schedule: seq<Actor>)
    requires Fits(Lenient(c), p) && Run(c, schedule).o.OOk? && Run(c, schedule).r.ROk?
    ensures Carried(c, p) && Passed(p, p.N())
    ensures var s := Run(c, schedule);
            s.writes == Flat(p.batches, p.N()) && Written(c, s.writes) == Some(s.file)
  {
    var shadow := Shadow(c, schedule);
    RunInv(Lenient(c), p, shadow);
    OkCarried(c, p, Run(c, schedule), Run(Lenient(c), shadow));
  }

  lemma OkCarried(c: Session, p: Plan, s: Joint, t: Joint)
    requires Follows(c, s, t) && p.Sized() && Logs(p, t) && OriginAt(p, t) && ReplicaAt(p, t)
    requires s.o.OOk? && s.r.ROk?
    ensures Carried(c, p) && Passed(p, p.N()) && s.writes == Flat(p.batches, p.N())
  {
    assert s.oLog == p.oMsgs && s.rLog == p.rMsgs;
    forall i: nat ensures CarriedAt(c, p, i) {
      assert i < |p.oMsgs| ==> Delivered(c, s.oLog[i]);
      assert i < |p.rMsgs| ==> Delivered(c, s.rLog[i]);
    }
  }

  /** At every point of every run, what has been written is a prefix of the plan. */
  lemma WritesFollowPlan(c: Session, p: Plan, schedule: seq<Actor>)
    requires Fits(Lenient(c), p)
    ensures var s := Run(c, schedule);
            s.writes <= Flat(p.batches, p.N()) && Written(c, s.writes) == Some(s.file)
  {
    var shadow := Shadow(c, schedule);
    RunInv(Lenient(c), p, shadow);
    WritesArePrefix(Lenient(c), p, Run(Lenient(c), shadow));
  }
}
