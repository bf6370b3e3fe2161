/** Bringing the stored namespaces of a cluster in line with the ones it lists. The saves are
    fired without waiting for them, so their steps interleave freely with the reading of the
    stored names and the deletion of dead ones, and may be left over when the sync returns. */
module NamespaceSync {
  datatype Namespace = Namespace(name: string, uid: string)

  /** A save first looks for a row with its uid, and inserts one when there is none. */
  datatype Status = Fired | Missing | Done

  datatype Save = Save(namespace: Namespace, status: Status)

  datatype Sync = Firing | HasRead(dead: set<string>) | Returned

  datatype State = State(stored: set<Namespace>, saves: seq<Save>, sync: Sync)

  datatype Action = Check(i: nat) | Insert(i: nat) | Read | Delete

  function Names(rows: set<Namespace>): set<string> {
    set n | n in rows :: n.name
  }

  function ListedNames(listed: seq<Namespace>): set<string> {
    set n | n in listed :: n.name
  }

  predicate HasUid(rows: set<Namespace>, uid: string) {
    exists n :: n in rows && n.uid == uid
  }

  predicate Enabled(s: State, a: Action) {
    match a
    case Check(i) => i < |s.saves| && s.saves[i].status == Fired
    case Insert(i) => i < |s.saves| && s.saves[i].status == Missing
    case Read => s.sync == Firing
    case Delete => s.sync.HasRead?
  }

  function Next(listed: seq<Namespace>, s: State, a: Action): State
    requires Enabled(s, a)
  {
    match a
    case Check(i) =>
      var status := if HasUid(s.stored, s.saves[i].namespace.uid) then Done else Missing;
      s.(saves := s.saves[i := s.saves[i].(status := status)])
    case Insert(i) =>
      s.(stored := s.stored + {s.saves[i].namespace}, saves := s.saves[i := s.saves[i].(status := Done)])
    case Read => s.(sync := HasRead(Names(s.stored) - ListedNames(listed)))
    case Delete => s.(stored := (set n | n in s.stored && n.name !in s.sync.dead), sync := Returned)
  }

  /** The two steps of a save: it is done at once exactly when a row has its uid, whatever the
      row's name; else its namespace is added as it is. No other save is touched. */
  lemma SaveExactly(listed: seq<Namespace>, s: State, i: nat)
    requires i < |s.saves|
    ensures s.saves[i].status == Fired ==>
      var s' := Next(listed, s, Check(i));
      && s'.stored == s.stored && s'.sync == s.sync && s'.saves == s.saves[i := s'.saves[i]]
      && s'.saves[i].namespace == s.saves[i].namespace
      && s'.saves[i].status ==
           if exists n :: n in s.stored && n.uid == s.saves[i].namespace.uid then Done else Missing
    ensures s.saves[i].status == Missing ==>
      var s' := Next(listed, s, Insert(i));
      && s'.stored == s.stored + {s.saves[i].namespace} && s'.sync == s.sync
      && s'.saves == s.saves[i := Save(s.saves[i].namespace, Done)]
  {
  }

  predicate IsKnown(s: State, n: Namespace) {
    n in s.stored || exists save :: save in s.saves && save.namespace == n
  }

  /** The cluster never gives a uid to another name. */
  ghost predicate UidsAgree(s: State) {
    forall m, n :: IsKnown(s, m) && IsKnown(s, n) && m.uid == n.uid ==> m.name == n.name
  }

  /** A sync has fired its saves; saves of earlier syncs may be left over. */
  ghost predicate IsStart(listed: seq<Namespace>, s: State) {
    UidsAgree(s) && s.sync == Firing && forall n :: n in listed ==> Save(n, Fired) in s.saves
  }

  function UnfinishedNames(s: State): set<string> {
    set save | save in s.saves && save.status != Done :: save.namespace.name
  }

  ghost predicate IsRun(listed: seq<Namespace>, states: seq<State>, actions: seq<Action>) {
    && |states| == |actions| + 1 && IsStart(listed, states[0])
    && (forall i :: 0 <= i < |actions| ==> Enabled(states[i], actions[i]))
    && (forall i :: 0 <= i < |actions| ==> states[i + 1] == Next(listed, states[i], actions[i]))
  }

  /** The saves of a state are those of the start, some of them further on. */
  ghost predicate SavesProgress(start: State, s: State) {
    && |s.saves| == |start.saves|
    && (forall i :: 0 <= i < |s.saves| ==> s.saves[i].namespace == start.saves[i].namespace)
    && (forall i :: 0 <= i < |s.saves| && start.saves[i].status == Done ==> s.saves[i].status == Done)
  }

  predicate DoneSince(start: State, s: State, i: nat)
    requires i < |start.saves| && i < |s.saves|
  {
    start.saves[i].status != Done && s.saves[i].status == Done
  }

  /** What holds at every instant of every interleaving. */
  ghost predicate Inv(listed: seq<Namespace>, start: State, s: State) {
    && IsStart(listed, start) && SavesProgress(start, s)
    // a save that is done since the start has its name stored, if that is listed
    && (forall i :: 0 <= i < |s.saves| && DoneSince(start, s, i) ==>
          (s.saves[i].namespace.name in ListedNames(listed) ==> s.saves[i].namespace.name in Names(s.stored)))
    // no namespace that the cluster lists is ever deleted
    && (forall n :: n in start.stored && n.name in ListedNames(listed) ==> n in s.stored)
    // nothing is stored that was not there before or is being saved
    && (forall n :: n in s.stored ==> IsKnown(start, n))
    && (s.sync.HasRead? ==> s.sync.dead !! ListedNames(listed))
    && (s.sync.HasRead? ==> Names(s.stored) <= s.sync.dead + UnfinishedNames(start))
    && (s.sync.Returned? ==> Names(s.stored) <= UnfinishedNames(start))
  }

  lemma ListedIsUnfinished(listed: seq<Namespace>, start: State)
    requires IsStart(listed, start)
    ensures ListedNames(listed) <= UnfinishedNames(start)
  {
    forall n | n in listed ensures n.name in UnfinishedNames(start) {
      assert Save(n, Fired) in start.saves;
    }
  }

  lemma NameIn(rows: set<Namespace>, n: Namespace)
    requires n in rows
    ensures n.name in Names(rows)
  {
  }

  lemma CheckKeepsInv(listed: seq<Namespace>, start: State, s: State, i: nat)
    requires Inv(listed, start, s) && Enabled(s, Check(i))
    ensures Inv(listed, start, Next(listed, s, Check(i)))
  {
    var save := s.saves[i];
    if n :| n in s.stored && n.uid == save.namespace.uid {
      assert start.saves[i] in start.saves && start.saves[i].namespace == save.namespace;
      assert IsKnown(start, save.namespace) && IsKnown(start, n);
      NameIn(s.stored, n);
    }
  }

  lemma InsertKeepsInv(listed: seq<Namespace>, start: State, s: State, i: nat)
    requires Inv(listed, start, s) && Enabled(s, Insert(i))
    ensures Inv(listed, start, Next(listed, s, Insert(i)))
  {
    var n := s.saves[i].namespace;
    assert start.saves[i] in start.saves && start.saves[i].status != Done;
    assert Names(s.stored + {n}) == Names(s.stored) + {n.name};
  }

  lemma DeleteKeepsInv(listed: seq<Namespace>, start: State, s: State)
    requires Inv(listed, start, s) && Enabled(s, Delete)
    ensures Inv(listed, start, Next(listed, s, Delete))
  {
    var s' := Next(listed, s, Delete);
    forall name | name in Names(s.stored) && name !in s.sync.dead ensures name in Names(s'.stored) {
      var n :| n in s.stored && n.name == name;
      NameIn(s'.stored, n);
    }
    forall n | n in s'.stored ensures n.name in UnfinishedNames(start) {
      NameIn(s.stored, n);
    }
  }

  lemma NextKeepsInv(listed: seq<Namespace>, start: State, s: State, a: Action)
    requires Inv(listed, start, s) && Enabled(s, a)
    ensures Inv(listed, start, Next(listed, s, a))
  {
    match a
    case Check(i) => CheckKeepsInv(listed, start, s, i);
    case Insert(i) => InsertKeepsInv(listed, start, s, i);
    case Read => ListedIsUnfinished(listed, start);
    case Delete => DeleteKeepsInv(listed, start, s);
  }

  lemma {:induction false} RunKeepsInv(listed: seq<Namespace>, states: seq<State>, actions: seq<Action>, i: nat)
    requires IsRun(listed, states, actions) && i < |states|
    ensures Inv(listed, states[0], states[i])
  {
    hide Inv, Next, Enabled;
    if i > 0 {
      RunKeepsInv(listed, states, actions, i - 1);
      NextKeepsInv(listed, states[0], states[i - 1], actions[i - 1]);
    } else {
      StartIsInv(listed, states[0]);
    }
  }

  lemma StartIsInv(listed: seq<Namespace>, start: State)
    requires IsStart(listed, start)
    ensures Inv(listed, start, start)
  {
  }

  /** In no interleaving is a namespace deleted that the cluster lists. */
  lemma NeverDeletesALiveOne(listed: seq<Namespace>, states: seq<State>, actions: seq<Action>, i: nat, n: Namespace)
    requires IsRun(listed, states, actions) && i < |states|
    requires n in states[0].stored && n.name in ListedNames(listed)
    ensures n in states[i].stored
  {
    RunKeepsInv(listed, states, actions, i);
  }

  /** When the sync has returned, nothing is stored but what some unfinished save named at its
      start, and everything listed is once the saves are done. */
  lemma WhenTheSyncReturns(listed: seq<Namespace>, states: seq<State>, actions: seq<Action>, i: nat)
    requires IsRun(listed, states, actions) && i < |states| && states[i].sync == Returned
    ensures Names(states[i].stored) <= UnfinishedNames(states[0])
    ensures (forall save :: save in states[i].saves ==> save.status == Done) ==>
      ListedNames(listed) <= Names(states[i].stored)
  {
    RunKeepsInv(listed, states, actions, i);
    if forall save :: save in states[i].saves ==> save.status == Done {
      forall n | n in listed ensures n.name in Names(states[i].stored) {
        var k :| 0 <= k < |states[0].saves| && states[0].saves[k] == Save(n, Fired);
        assert states[i].saves[k] in states[i].saves;
      }
    }
  }

  // ---------- exactly when a returned sync has done its work ----------

  /** The stored names are the listed ones whenever the sync has returned. */
  ghost predicate AlwaysInStep(listed: seq<Namespace>, start: State) {
    forall states: seq<State>, actions, i ::
      (IsRun(listed, states, actions) && states[0] == start && 0 <= i < |states| && states[i].sync == Returned) ==>
        Names(states[i].stored) == ListedNames(listed)
  }

  /** Can be looked up before the sync: every listed name is stored already, and no save that
      is left over names anything else. */
  predicate NothingToAdd(listed: seq<Namespace>, start: State) {
    ListedNames(listed) <= Names(start.stored) && UnfinishedNames(start) <= ListedNames(listed)
  }

  ghost function AfterDelete(listed: seq<Namespace>, start: State): State
    requires start.sync == Firing
  {
    Next(listed, Next(listed, start, Read), Delete)
  }

  /** What is left by the shortest run. */
  lemma ShortestRun(listed: seq<Namespace>, start: State)
    requires IsStart(listed, start)
    ensures IsRun(listed, [start, Next(listed, start, Read), AfterDelete(listed, start)], [Read, Delete])
    ensures AfterDelete(listed, start).sync == Returned && AfterDelete(listed, start).saves == start.saves
    ensures Names(AfterDelete(listed, start).stored) == Names(start.stored) * ListedNames(listed)
  {
    var left, both := AfterDelete(listed, start).stored, Names(start.stored) * ListedNames(listed);
    assert forall n :: n in left <==> n in start.stored && n.name in both;
  }

  /** A run that ends with a left-over save of a name that is not listed. */
  lemma StrayRun(listed: seq<Namespace>, start: State, k: nat) returns (states: seq<State>, actions: seq<Action>)
    requires IsStart(listed, start) && k < |start.saves| && start.saves[k].status != Done
    requires start.saves[k].namespace.name !in ListedNames(listed)
    ensures IsRun(listed, states, actions) && states[0] == start && states[|states| - 1].sync == Returned
    ensures start.saves[k].namespace in states[|states| - 1].stored
  {
    ShortestRun(listed, start);
    var stray, s2 := start.saves[k].namespace, AfterDelete(listed, start);
    states, actions := [start, Next(listed, start, Read), s2], [Read, Delete];
    if start.saves[k].status == Fired {
      forall n | n in s2.stored ensures n.uid != stray.uid {
        assert start.saves[k] in start.saves;
        assert IsKnown(start, n) && IsKnown(start, stray);
        NameIn(s2.stored, n);
      }
      var s3 := Next(listed, s2, Check(k));
      states, actions := states + [s3, Next(listed, s3, Insert(k))], actions + [Check(k), Insert(k)];
    } else {
      states, actions := states + [Next(listed, s2, Insert(k))], actions + [Insert(k)];
    }
  }

  /** In every interleaving a returned sync has stored exactly the listed names, exactly when
      there was nothing to add. */
  lemma InStepExactly(listed: seq<Namespace>, start: State)
    requires IsStart(listed, start)
    ensures AlwaysInStep(listed, start) <==> NothingToAdd(listed, start)
  {
    if AlwaysInStep(listed, start) {
      ShortestRun(listed, start);
      assert Names(AfterDelete(listed, start).stored) == ListedNames(listed) by {
        var states := [start, Next(listed, start, Read), AfterDelete(listed, start)];
        assert states[2].sync == Returned;
      }
      forall save | save in start.saves && save.status != Done ensures save.namespace.name in ListedNames(listed) {
        var k :| 0 <= k < |start.saves| && start.saves[k] == save;
        if save.namespace.name !in ListedNames(listed) {
          var states, actions := StrayRun(listed, start, k);
          NameIn(states[|states| - 1].stored, save.namespace);
        }
      }
    }
    if NothingToAdd(listed, start) {
      forall states: seq<State>, actions, i
        | IsRun(listed, states, actions) && states[0] == start && 0 <= i < |states| && states[i].sync == Returned
        ensures Names(states[i].stored) == ListedNames(listed)
      {
        RunKeepsInv(listed, states, actions, i);
        forall name | name in ListedNames(listed) ensures name in Names(states[i].stored) {
          var n :| n in start.stored && n.name == name;
          NameIn(states[i].stored, n);
        }
      }
    }
  }

  function Late(): (seq<Namespace>, seq<State>, seq<Action>) {
    var saves := [Save(Namespace("a", "1"), Fired)];
    ([Namespace("a", "1")],
     [State({}, saves, Firing), State({}, saves, HasRead({})), State({}, saves, Returned)],
     [Read, Delete])
  }

  /** The sync can return before a listed namespace is stored. */
  lemma CanReturnEarly()
    ensures var (listed, states, actions) := Late();
      && IsRun(listed, states, actions) && states[2].sync == Returned
      && Names(states[2].stored) != ListedNames(listed)
  {
    var (listed, states, actions) := Late();
    assert Names({}) - ListedNames(listed) == {};
    assert (set n: Namespace | n in states[1].stored && n.name !in {}) == {};
    assert listed[0].name in ListedNames(listed);
  }
}
