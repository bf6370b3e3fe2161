/** E-mail alerts for Falco anomalies, throttled by the sends on record. Alerts overlap: one
    may look at the record while another is still sending. */
module FalcoAlerts {
  import opened Wrappers
  import opened Shared
  import opened Text

  datatype Setting = Setting(sendNotificationAnomaly: bool, anomalyFrequency: int, severityLevel: string,
    whoToNotify: string, emailList: string)

  /** One row of `falco_email`. */
  datatype Email = Email(sentAt: int, cluster: nat, signature: string)

  /** An anomaly as it comes in: the clock, the settings of its cluster, what the database
      answers about earlier sends, and how each send to a recipient goes (the instant it
      succeeded, or nothing). */
  datatype Anomaly = Anomaly(now: int, setting: Option<Setting>, cluster: nat, signature: string, severity: string,
    admins: seq<string>, lookup: Option<int>, outcomes: seq<Option<int>>)

  function Frequency(s: Setting): int {
    s.anomalyFrequency * MS_PER_DAY
  }

  function NonBlank(parts: seq<string>): seq<string> {
    if parts == [] then [] else (if Trim(parts[0]) != "" then [Trim(parts[0])] else []) + NonBlank(parts[1..])
  }

  function Recipients(a: Anomaly): seq<string>
    requires a.setting.Some?
  {
    if a.setting.value.whoToNotify == "allAdmin" then a.admins else NonBlank(Split(a.setting.value.emailList, ","))
  }

  /** Whether an e-mail is wanted at all. */
  predicate Qualifies(a: Anomaly) {
    a.setting.Some? && a.setting.value.sendNotificationAnomaly && IndexOf(a.setting.value.severityLevel, a.severity) != -1
  }

  predicate MaySend(a: Anomaly)
    requires a.setting.Some?
  {
    a.lookup.None? || a.lookup.value <= a.now - Frequency(a.setting.value)
  }

  predicate Goes(a: Anomaly) {
    Qualifies(a) && MaySend(a)
  }

  /** What a send puts on record. */
  function Record(cluster: nat, signature: string, outcome: Option<int>): seq<Email> {
    if outcome.Some? then [Email(outcome.value, cluster, signature)] else []
  }

  /** The sends that succeeded, for the record. */
  function Sent(cluster: nat, signature: string, outcomes: seq<Option<int>>): seq<Email> {
    if outcomes == [] then [] else Record(cluster, signature, outcomes[0]) + Sent(cluster, signature, outcomes[1..])
  }

  function Batch(a: Anomaly): seq<Email> {
    if Goes(a) then Sent(a.cluster, a.signature, a.outcomes) else []
  }

  predicate IsFor(e: Email, cluster: nat, signature: string) {
    e.cluster == cluster && e.signature == signature
  }

  /** The lookup reads some recorded row of the anomaly, whichever the database lists first. */
  ghost predicate IsLookup(emails: seq<Email>, cluster: nat, signature: string, lookup: Option<int>) {
    match lookup
    case None => forall e :: e in emails ==> !IsFor(e, cluster, signature)
    case Some(at) => exists e :: e in emails && IsFor(e, cluster, signature) && e.sentAt == at
  }

  // ---------- steps ----------

  /** An alert that is being sent, with the number of recipients it is done with. */
  datatype Flight = Flight(a: Anomaly, next: nat)

  /** `mailed` are the recipients of all sends, whether they succeeded or not. */
  datatype State = State(emails: seq<Email>, flights: seq<Flight>, mailed: seq<string>)

  /** One request looks at the record and decides; or one alert in flight is sent to its next
      recipient and recorded. */
  datatype Action = Look(a: Anomaly) | SendNext(i: nat)

  ghost predicate Enabled(s: State, action: Action) {
    match action
    case Look(a) =>
      && IsLookup(s.emails, a.cluster, a.signature, a.lookup)
      && (a.setting.Some? ==> |a.outcomes| == |Recipients(a)|)
      && forall o :: o in a.outcomes && o.Some? ==> a.now <= o.value
    case SendNext(i) => CanSend(s, i)
  }

  predicate CanSend(s: State, i: nat) {
    i < |s.flights| &&
    var f := s.flights[i];
    f.a.setting.Some? && f.next < |f.a.outcomes| == |Recipients(f.a)|
  }

  function Next(s: State, action: Action): State
    requires action.SendNext? ==> CanSend(s, action.i)
  {
    match action
    case Look(a) => if Goes(a) then s.(flights := s.flights + [Flight(a, 0)]) else s
    case SendNext(i) =>
      var f := s.flights[i];
      State(s.emails + Record(f.a.cluster, f.a.signature, f.a.outcomes[f.next]), s.flights[i := f.(next := f.next + 1)],
        s.mailed + [Recipients(f.a)[f.next]])
  }

  class FalcoEmails {
    var emails: seq<Email>
    var flights: seq<Flight>
    var mailed: seq<string>

    constructor ()
      ensures View() == State([], [], [])
    {
      emails, flights, mailed := [], [], [];
    }

    function View(): State
      reads this
    {
      State(emails, flights, mailed)
    }

    /** Up to the decision whether to send. */
    method DecideToSend(a: Anomaly)
      requires Enabled(View(), Look(a))
      modifies this
      ensures View() == Next(old(View()), Look(a))
    {
      if a.setting.None? {
        return;
      }
      var falcoSetting := a.setting.value;
      if !falcoSetting.sendNotificationAnomaly {
        return;
      }
      if IndexOf(falcoSetting.severityLevel, a.severity) == -1 {
        return;
      }
      if a.lookup.None? || a.lookup.value <= a.now - Frequency(falcoSetting) {
        flights := flights + [Flight(a, 0)];
      }
    }

    /** One round of the loop over recipients. */
    method SendToNext(i: nat)
      requires Enabled(View(), SendNext(i))
      modifies this
      ensures View() == Next(old(View()), SendNext(i))
    {
      var f := flights[i];
      mailed := mailed + [Recipients(f.a)[f.next]];
      var emailSentTime := f.a.outcomes[f.next];
      if emailSentTime.Some? {
        emails := emails + [Email(emailSentTime.value, f.a.cluster, f.a.signature)];
      }
      flights := flights[i := f.(next := f.next + 1)];
    }

    /** One alert from start to end, with no other in between. */
    method SendFalcoEmailAlert(a: Anomaly)
      requires Enabled(View(), Look(a))
      modifies this
      ensures emails == old(emails) + Batch(a)
      ensures mailed == old(mailed) + if Goes(a) then Recipients(a) else []
    {
      var mine := |flights|;
      DecideToSend(a);
      hide Goes;
      if mine < |flights| {
        SendToAll(mine);
      }
    }

    method SendToAll(i: nat)
      requires i < |flights| && flights[i].next == 0
      requires flights[i].a.setting.Some? && |flights[i].a.outcomes| == |Recipients(flights[i].a)|
      modifies this
      ensures emails == old(emails) + Sent(old(flights[i].a.cluster), old(flights[i].a.signature), old(flights[i].a.outcomes))
      ensures mailed == old(mailed) + Recipients(old(flights[i].a))
    {
      var a, n := flights[i].a, 0;
      ghost var e, m := emails, mailed;
      SentAll(a);
      assert m + Recipients(a)[..0] == m;
      hide Recipients, Sent, Record;
      while n < |a.outcomes|
        invariant i < |flights| && flights[i] == Flight(a, n) && n <= |a.outcomes|
        invariant emails + Sent(a.cluster, a.signature, a.outcomes[n..]) == e + Sent(a.cluster, a.signature, a.outcomes)
        invariant mailed == m + Recipients(a)[..n]
      {
        SentStep(a, n);
        NextRecipient(a, m, n);
        Assoc(emails, Record(a.cluster, a.signature, a.outcomes[n]), Sent(a.cluster, a.signature, a.outcomes[n + 1..]));
        SendToNext(i);
        n := n + 1;
      }
      assert Recipients(a)[..n] == Recipients(a);
    }
  }

  lemma NextRecipient(a: Anomaly, mailed: seq<string>, n: nat)
    requires a.setting.Some? && n < |Recipients(a)|
    ensures mailed + Recipients(a)[..n] + [Recipients(a)[n]] == mailed + Recipients(a)[..n + 1]
  {
  }

  lemma SentAll(a: Anomaly)
    ensures Sent(a.cluster, a.signature, a.outcomes[0..]) == Sent(a.cluster, a.signature, a.outcomes)
    ensures Sent(a.cluster, a.signature, a.outcomes[|a.outcomes|..]) == []
  {
    assert a.outcomes[0..] == a.outcomes;
  }

  lemma SentStep(a: Anomaly, k: nat)
    requires k < |a.outcomes|
    ensures Sent(a.cluster, a.signature, a.outcomes[k..]) ==
      Record(a.cluster, a.signature, a.outcomes[k]) + Sent(a.cluster, a.signature, a.outcomes[k + 1..])
  {
  }

  // ---------- one anomaly ----------

  /** An alert goes out iff there are settings, they ask for it, the severity is among theirs, and
      the send that was looked up, if any, is as many days old as they say. */
  lemma GoesExactly(a: Anomaly)
    ensures Goes(a) <==>
      && a.setting.Some? && a.setting.value.sendNotificationAnomaly
      && Contains(a.setting.value.severityLevel, a.severity)
      && (a.lookup.Some? ==> a.lookup.value + a.setting.value.anomalyFrequency * 86400000 <= a.now)
  {
  }

  /** It goes to all administrators, or, in order, to those entries of the list, cut at commas and
      trimmed, that are not blank. */
  lemma RecipientsExactly(a: Anomaly)
    requires a.setting.Some?
    ensures a.setting.value.whoToNotify == "allAdmin" ==> Recipients(a) == a.admins
    ensures a.setting.value.whoToNotify != "allAdmin" ==>
      var entries := Split(a.setting.value.emailList, ",");
      var kept := Filter(entries, e => Trim(e) != "");
      |Recipients(a)| == |kept| && forall i :: 0 <= i < |kept| ==> Recipients(a)[i] == Trim(kept[i])
  {
    NonBlankExactly(Split(a.setting.value.emailList, ","));
  }

  lemma {:induction false} NonBlankExactly(parts: seq<string>)
    ensures var kept := Filter(parts, e => Trim(e) != "");
      |NonBlank(parts)| == |kept| && forall i :: 0 <= i < |kept| ==> NonBlank(parts)[i] == Trim(kept[i])
  {
    if parts != [] {
      NonBlankExactly(parts[1..]);
    }
  }

  /** The earliest send on record is old enough, or there is none. */
  ghost predicate EarliestIsOld(emails: seq<Email>, a: Anomaly)
    requires a.setting.Some?
  {
    || (forall e :: e in emails ==> !IsFor(e, a.cluster, a.signature))
    || (exists e :: e in emails && IsFor(e, a.cluster, a.signature) && e.sentAt <= a.now - Frequency(a.setting.value))
  }

  ghost predicate AllAreOld(emails: seq<Email>, a: Anomaly)
    requires a.setting.Some?
  {
    forall e :: e in emails && IsFor(e, a.cluster, a.signature) ==> e.sentAt <= a.now - Frequency(a.setting.value)
  }

  /** Whichever row the database lists first: an e-mail can be sent exactly when the earliest
      send on record is old enough, and is sure to be sent exactly when all of them are. */
  lemma WhatTheLookupDecides(emails: seq<Email>, a: Anomaly)
    requires a.setting.Some?
    ensures (exists lookup :: IsLookup(emails, a.cluster, a.signature, lookup) && MaySend(a.(lookup := lookup)))
      <==> EarliestIsOld(emails, a)
    ensures (forall lookup :: IsLookup(emails, a.cluster, a.signature, lookup) ==> MaySend(a.(lookup := lookup)))
      <==> AllAreOld(emails, a)
  {
    forall e | e in emails && IsFor(e, a.cluster, a.signature)
      ensures IsLookup(emails, a.cluster, a.signature, Some(e.sentAt))
      ensures MaySend(a.(lookup := Some(e.sentAt))) <==> e.sentAt <= a.now - Frequency(a.setting.value)
    {
    }
    if forall e :: e in emails ==> !IsFor(e, a.cluster, a.signature) {
      assert IsLookup(emails, a.cluster, a.signature, None) && MaySend(a.(lookup := None));
    }
  }

  // ---------- what every reachable state keeps ----------

  /** The send was made by this alert. */
  predicate SentBy(e: Email, f: Flight) {
    IsFor(e, f.a.cluster, f.a.signature) && exists k :: 0 <= k < f.next <= |f.a.outcomes| && f.a.outcomes[k] == Some(e.sentAt)
  }

  /** The alert has a send on record. */
  predicate HasRecorded(f: Flight) {
    exists k :: 0 <= k < f.next <= |f.a.outcomes| && f.a.outcomes[k].Some?
  }

  predicate SameAnomaly(a: Anomaly, b: Anomaly) {
    a.cluster == b.cluster && a.signature == b.signature
  }

  ghost predicate FlightOk(emails: seq<Email>, f: Flight) {
    && Goes(f.a) && f.next <= |f.a.outcomes| == |Recipients(f.a)|
    && (forall o :: o in f.a.outcomes && o.Some? ==> f.a.now <= o.value)
    && (forall k :: 0 <= k < f.next && f.a.outcomes[k].Some? ==>
          Email(f.a.outcomes[k].value, f.a.cluster, f.a.signature) in emails)
  }

  ghost predicate Inv(s: State) {
    && (forall f :: f in s.flights ==> FlightOk(s.emails, f))
    && (forall e :: e in s.emails ==> exists f :: f in s.flights && SentBy(e, f))
  }

  ghost predicate IsRun(states: seq<State>, actions: seq<Action>) {
    && |states| == |actions| + 1 && states[0] == State([], [], [])
    && forall i :: 0 <= i < |actions| ==> Enabled(states[i], actions[i]) && states[i + 1] == Next(states[i], actions[i])
  }

  lemma SendKeepsInv(s: State, i: nat)
    requires Inv(s) && Enabled(s, SendNext(i))
    ensures Inv(Next(s, SendNext(i)))
  {
    hide Goes;
    var s', f := Next(s, SendNext(i)), s.flights[i];
    var outcome, f' := f.a.outcomes[f.next], s'.flights[i];
    assert f in s.flights;
    forall g | g in s'.flights ensures FlightOk(s'.emails, g) {
      assert g in s.flights || g == f';
    }
    forall e | e in s'.emails ensures exists g :: g in s'.flights && SentBy(e, g) {
      if e in s.emails {
        var g :| g in s.flights && SentBy(e, g);
        var k :| 0 <= k < |s.flights| && s.flights[k] == g;
        assert s'.flights[k] in s'.flights && SentBy(e, s'.flights[k]);
      } else {
        assert f'.a.outcomes[f.next] == Some(e.sentAt) && f.next < f'.next;
        assert f' in s'.flights && SentBy(e, f');
      }
    }
  }

  lemma LookKeepsInv(s: State, a: Anomaly)
    requires Inv(s) && Enabled(s, Look(a))
    ensures Inv(Next(s, Look(a)))
  {
    var s' := Next(s, Look(a));
    forall e | e in s'.emails ensures exists g :: g in s'.flights && SentBy(e, g) {
      var g :| g in s.flights && SentBy(e, g);
      assert g in s'.flights;
    }
  }

  lemma {:induction false} RunKeepsInv(states: seq<State>, actions: seq<Action>, i: nat)
    requires IsRun(states, actions) && i < |states|
    ensures Inv(states[i])
  {
    if i > 0 {
      RunKeepsInv(states, actions, i - 1);
      hide Inv, Next;
      match actions[i - 1]
      case Look(a) => LookKeepsInv(states[i - 1], a);
      case SendNext(k) => SendKeepsInv(states[i - 1], k);
    }
  }

  // ---------- how far apart alerts are ----------

  /** The anomaly's alert is sent a frequency after the decision to send that one. */
  predicate Follows(a: Anomaly, b: Anomaly)
    requires b.setting.Some?
  {
    a.now + Frequency(b.setting.value) <= b.now
  }

  /** On any run: an alert that goes out when something is on record for its anomaly follows
      some alert that put something on record. */
  lemma FollowsSomeAlert(states: seq<State>, actions: seq<Action>, j: nat) returns (f: Flight)
    requires IsRun(states, actions) && j < |actions| && actions[j].Look? && Goes(actions[j].a)
    requires exists e :: e in states[j].emails && IsFor(e, actions[j].a.cluster, actions[j].a.signature)
    ensures f in states[j].flights && SameAnomaly(f.a, actions[j].a) && HasRecorded(f)
    ensures Follows(f.a, actions[j].a)
  {
    RunKeepsInv(states, actions, j);
    assert Enabled(states[j], actions[j]);
    f := FollowsSomeFlight(states[j], actions[j].a);
  }

  lemma FollowsSomeFlight(s: State, b: Anomaly) returns (f: Flight)
    requires Inv(s) && Goes(b) && IsLookup(s.emails, b.cluster, b.signature, b.lookup)
    requires exists e :: e in s.emails && IsFor(e, b.cluster, b.signature)
    ensures f in s.flights && SameAnomaly(f.a, b) && HasRecorded(f) && Follows(f.a, b)
  {
    var e :| e in s.emails && IsFor(e, b.cluster, b.signature) && Some(e.sentAt) == b.lookup;
    f :| f in s.flights && SentBy(e, f);
    assert FlightOk(s.emails, f);
    var k :| 0 <= k < f.next <= |f.a.outcomes| && f.a.outcomes[k] == Some(e.sentAt);
    assert f.a.outcomes[k] in f.a.outcomes;
  }

  ghost predicate OnlyFlight(s: State, f: Flight) {
    f in s.flights && forall g :: g in s.flights && SameAnomaly(g.a, f.a) ==> g == f
  }

  /** Any alert for the same anomaly that goes out next, at `now` or later and with these
      settings, follows this one. */
  ghost predicate NextIsApart(s: State, f: Flight, now: int, setting: Setting) {
    forall b :: SameAnomaly(f.a, b) && b.setting == Some(setting) && now <= b.now && Goes(b) && Enabled(s, Look(b)) ==>
      Follows(f.a, b)
  }

  /** The first two alerts of an anomaly are certain to be the frequency apart exactly when the
      first has something on record by the time the second looks, or the frequency has passed
      by then anyway. */
  lemma FirstTwoAreApart(states: seq<State>, actions: seq<Action>, i: nat, f: Flight, now: int, setting: Setting)
    requires IsRun(states, actions) && i < |states| && OnlyFlight(states[i], f) && setting.sendNotificationAnomaly
    ensures NextIsApart(states[i], f, now, setting) <==> HasRecorded(f) || f.a.now + Frequency(setting) <= now
  {
    RunKeepsInv(states, actions, i);
    var s := states[i];
    assert FlightOk(s.emails, f);
    if HasRecorded(f) {
      var k :| 0 <= k < f.next <= |f.a.outcomes| && f.a.outcomes[k].Some?;
      assert IsFor(Email(f.a.outcomes[k].value, f.a.cluster, f.a.signature), f.a.cluster, f.a.signature);
      forall b | SameAnomaly(f.a, b) && Goes(b) && Enabled(s, Look(b)) ensures Follows(f.a, b) {
        var g := FollowsSomeFlight(s, b);
      }
    } else {
      NothingOnRecord(s, f);
      var to := Recipients(f.a.(setting := Some(setting)));
      var b := f.a.(now := now, setting := Some(setting), severity := "", lookup := None,
        outcomes := seq(|to|, _ => None));
      assert Recipients(b) == to;
      assert OccursAt(setting.severityLevel, "", 0);
      assert Goes(b) && Enabled(s, Look(b));
    }
  }

  lemma NothingOnRecord(s: State, f: Flight)
    requires Inv(s) && OnlyFlight(s, f) && !HasRecorded(f)
    ensures IsLookup(s.emails, f.a.cluster, f.a.signature, None)
  {
    forall e | e in s.emails ensures !IsFor(e, f.a.cluster, f.a.signature) {
      var g :| g in s.flights && SentBy(e, g);
      var k :| 0 <= k < g.next <= |g.a.outcomes| && g.a.outcomes[k] == Some(e.sentAt);
      assert HasRecorded(g);
    }
  }

  /** If the database always answered with the latest send on record, an alert would follow
      every one that has something on record. */
  lemma LatestKeepsAllApart(states: seq<State>, actions: seq<Action>, j: nat, f: Flight)
    requires IsRun(states, actions) && j < |actions| && actions[j].Look? && Goes(actions[j].a)
    requires f in states[j].flights && SameAnomaly(f.a, actions[j].a) && HasRecorded(f)
    requires forall e :: e in states[j].emails && IsFor(e, f.a.cluster, f.a.signature) ==>
      actions[j].a.lookup.Some? && e.sentAt <= actions[j].a.lookup.value
    ensures Follows(f.a, actions[j].a)
  {
    RunKeepsInv(states, actions, j);
    assert FlightOk(states[j].emails, f);
    var k :| 0 <= k < f.next <= |f.a.outcomes| && f.a.outcomes[k].Some?;
    assert f.a.outcomes[k] in f.a.outcomes;
    assert IsFor(Email(f.a.outcomes[k].value, f.a.cluster, f.a.signature), f.a.cluster, f.a.signature);
  }

  /** As it is, an alert is certain to go out only a frequency after every send on record exactly
      when all of them are that old, or none is and it cannot go out at all. */
  lemma AllAreApartExactly(emails: seq<Email>, a: Anomaly)
    requires a.setting.Some?
    ensures (forall lookup :: (IsLookup(emails, a.cluster, a.signature, lookup) && MaySend(a.(lookup := lookup))) ==>
              AllAreOld(emails, a))
      <==> AllAreOld(emails, a) || !EarliestIsOld(emails, a)
  {
    WhatTheLookupDecides(emails, a);
  }

  // ---------- runs on which alerts are too close ----------

  function Daily(now: int, lookup: Option<int>): Anomaly {
    Anomaly(now, Some(Setting(true, 1, "Error", "allAdmin", "")), 1, "s", "Error", ["a"], lookup, [Some(now)])
  }

  lemma DailyGoes(now: int, lookup: Option<int>)
    requires lookup.None? || lookup.value <= now - MS_PER_DAY
    ensures Goes(Daily(now, lookup)) && Record(1, "s", Some(now)) == [Email(now, 1, "s")]
  {
    assert OccursAt("Error", "Error", 0);
  }

  function Overlap(): (seq<State>, seq<Action>) {
    var a, b := Daily(0, None), Daily(1, None);
    var x, y := Email(0, 1, "s"), Email(1, 1, "s");
    ([State([], [], []), State([], [Flight(a, 0)], []), State([], [Flight(a, 0), Flight(b, 0)], []),
      State([x], [Flight(a, 1), Flight(b, 0)], ["a"]), State([x, y], [Flight(a, 1), Flight(b, 1)], ["a", "a"])],
     [Look(a), Look(b), SendNext(0), SendNext(1)])
  }

  /** Two alerts that overlap: with a frequency of one day, e-mails go out a millisecond apart. */
  lemma OverlappingAlertsBothGo()
    ensures var (states, actions) := Overlap();
      && IsRun(states, actions) && states[4].emails == [Email(0, 1, "s"), Email(1, 1, "s")]
      && Frequency(actions[1].a.setting.value) == MS_PER_DAY
  {
    DailyGoes(0, None);
    DailyGoes(1, None);
    hide Goes;
    var (states, actions) := Overlap();
    forall i | 0 <= i < |actions| ensures Enabled(states[i], actions[i]) && states[i + 1] == Next(states[i], actions[i]) {
      assert i == 0 || i == 1 || i == 2 || i == 3;
    }
  }

  function AtOnce(): (seq<State>, seq<Action>) {
    var a, b, c := Daily(0, None), Daily(MS_PER_DAY, Some(0)), Daily(MS_PER_DAY + 1, Some(0));
    var x, y, z := Email(0, 1, "s"), Email(MS_PER_DAY, 1, "s"), Email(MS_PER_DAY + 1, 1, "s");
    ([State([], [], []), State([], [Flight(a, 0)], []), State([x], [Flight(a, 1)], ["a"]),
      State([x], [Flight(a, 1), Flight(b, 0)], ["a"]), State([x, y], [Flight(a, 1), Flight(b, 1)], ["a", "a"]),
      State([x, y], [Flight(a, 1), Flight(b, 1), Flight(c, 0)], ["a", "a"]),
      State([x, y, z], [Flight(a, 1), Flight(b, 1), Flight(c, 1)], ["a", "a", "a"])],
     [Look(a), SendNext(0), Look(b), SendNext(1), Look(c), SendNext(2)])
  }

  /** Even without overlap a third alert can follow the second at once: with a frequency of
      one day, e-mails go out now, a day later, and a millisecond after that. */
  lemma ThirdCanFollowAtOnce()
    ensures var (states, actions) := AtOnce();
      && IsRun(states, actions)
      && states[6].emails == [Email(0, 1, "s"), Email(MS_PER_DAY, 1, "s"), Email(MS_PER_DAY + 1, 1, "s")]
      && Frequency(actions[4].a.setting.value) == MS_PER_DAY
  {
    DailyGoes(0, None);
    DailyGoes(MS_PER_DAY, Some(0));
    DailyGoes(MS_PER_DAY + 1, Some(0));
    hide Goes;
    var (states, actions) := AtOnce();
    var x := Email(0, 1, "s");
    assert x in states[2].emails && x in states[4].emails;
    forall i | 0 <= i < |actions| ensures Enabled(states[i], actions[i]) && states[i + 1] == Next(states[i], actions[i]) {
      assert i == 0 || i == 1 || i == 2 || i == 3 || i == 4 || i == 5;
    }
  }
}
