/** Two UpdateUser calls for one user side by side. Each fetches and writes in two separate holds of the lock, so
    that one can be lost although both callers are told of success. */
module LostUpdates {
  import opened Values
  import opened FieldMask
  import opened StoreSpec
  import opened Handlers
  import opened Interleaving
  import opened MaskedUpdates

  function Both(r1: User, m1: seq<string>, r2: User, m2: seq<string>): seq<Call> {
    [UpdateUser(Some(r1), m1), UpdateUser(Some(r2), m2)]
  }

  predicate Complete(st: State) {
    forall i | 0 <= i < |st.threads| :: st.threads[i].Done?
  }

  /** The first call and then the second, each alone */
  function FirstThenSecond(s: Store, r1: User, m1: seq<string>, r2: User, m2: seq<string>): State {
    var middle := MaskedUpdates.Updated(s, r1, m1);
    State(MaskedUpdates.Updated(middle, r2, m2), [UpdateReply(s, r1, m1), UpdateReply(middle, r2, m2)])
  }

  function SecondThenFirst(s: Store, r1: User, m1: seq<string>, r2: User, m2: seq<string>): State {
    var middle := MaskedUpdates.Updated(s, r2, m2);
    State(MaskedUpdates.Updated(middle, r1, m1), [UpdateReply(middle, r1, m1), UpdateReply(s, r2, m2)])
  }

  /** In every complete interleaving from every well kept store, store and answers are those of a serial order. */
  ghost predicate AlwaysSerial(r1: User, m1: seq<string>, r2: User, m2: seq<string>) {
    forall s: Store, ticks: seq<Tick> | WellKept(s) && Complete(Exec(Initial(s, Both(r1, m1, r2, m2)), ticks)) ::
      || Exec(Initial(s, Both(r1, m1, r2, m2)), ticks) == FirstThenSecond(s, r1, m1, r2, m2)
      || Exec(Initial(s, Both(r1, m1, r2, m2)), ticks) == SecondThenFirst(s, r1, m1, r2, m2)
  }

  /** Email and phone are not kept in any case. */
  predicate AgreeOnKept(first: set<Field>, second: set<Field>) {
    first - {Email, Phone} == second - {Email, Phone}
  }

  // ---------- With masks that agree ----------

  lemma SecondHidesFirst(u: User, r1: User, r2: User, first: set<Field>, second: set<Field>)
    requires Stored(u) == u && AgreeOnKept(first, second)
    ensures Merged(Stored(Merged(u, r1, first)), r2, second) == Merged(u, r2, second)
  {
    forall f: Field | f != Email && f != Phone ensures f in first <==> f in second {
      assert f in first - {Email, Phone} <==> f in second - {Email, Phone};
    }
  }

  /** Both threads edit the user that was there at the start, and the last one to write is kept. */
  ghost predicate Editing(s: Store, id: Id, r1: User, m1: seq<string>, r2: User, m2: seq<string>,
                          e1: User, e2: User, st: State)
  {
    && |st.threads| == 2
    && st.threads[0] in {UpdateFetch(r1, m1), UpdateWrite(e1), Done(OneUser(e1))}
    && st.threads[1] in {UpdateFetch(r2, m2), UpdateWrite(e2), Done(OneUser(e2))}
    && (!st.threads[0].Done? && !st.threads[1].Done? ==> st.store == s)
    && (st.threads[0].Done? && !st.threads[1].Done? ==> st.store == s[id := Stored(e1)])
    && (!st.threads[0].Done? && st.threads[1].Done? ==> st.store == s[id := Stored(e2)])
    && (st.threads[0].Done? && st.threads[1].Done? ==>
          st.store == s[id := Stored(e1)] || st.store == s[id := Stored(e2)])
  }

  /** One thread's next step, whatever of the three users is stored */
  lemma EditStep(s: Store, t: Store, req: User, mask: seq<string>, e: User, l: Local, now: Time)
    requires req.id in s && req.id in t && Known(mask) && e.id == req.id
    requires Merged(Stored(t[req.id]), req, Named(mask)) == e
    requires l in {UpdateFetch(req, mask), UpdateWrite(e), Done(OneUser(e))}
    ensures Step(t, l, now) == if l.UpdateFetch? then (t, UpdateWrite(e))
                               else if l.UpdateWrite? then (t[req.id := Stored(e)], Done(OneUser(e)))
                               else (t, l)
  {
    MaskMeaning(Stored(t[req.id]), req, mask);
    hide Edited, Known, Named, Merged, Stored;
    if l.UpdateFetch? {
      StepUpdateFetch(t, req, mask, now);
    } else if l.UpdateWrite? {
      StepUpdateWrite(t, e, now);
    } else {
      StepDone(t, l.response, now);
    }
    hide Step;
  }

  lemma EditingNext(s: Store, r1: User, m1: seq<string>, r2: User, m2: seq<string>, st: State, tick: Tick)
    requires WellKept(s) && r1.id == r2.id && r1.id in s && Known(m1) && Known(m2)
    requires AgreeOnKept(Named(m1), Named(m2))
    requires Editing(s, r1.id, r1, m1, r2, m2, Merged(s[r1.id], r1, Named(m1)), Merged(s[r1.id], r2, Named(m2)), st)
    ensures Editing(s, r1.id, r1, m1, r2, m2, Merged(s[r1.id], r1, Named(m1)), Merged(s[r1.id], r2, Named(m2)),
                    Next(st, tick))
  {
    var u := s[r1.id];
    var e1, e2 := Merged(u, r1, Named(m1)), Merged(u, r2, Named(m2));
    SecondHidesFirst(u, r1, r2, Named(m1), Named(m2));
    SecondHidesFirst(u, r2, r1, Named(m2), Named(m1));
    SecondHidesFirst(u, r1, r1, Named(m1), Named(m1));
    SecondHidesFirst(u, r2, r2, Named(m2), Named(m2));
    assert Stored(u) == u && Stored(Stored(e1)) == Stored(e1) && Stored(Stored(e2)) == Stored(e2);
    assert e1.id == r1.id && e2.id == r1.id;
    hide Step, Merged, Stored, Known, Named, WellKept, AgreeOnKept;
    assert st.store[r1.id] in {u, Stored(e1), Stored(e2)};
    if tick.who == 0 {
      EditStep(s, st.store, r1, m1, e1, st.threads[0], tick.now);
    } else if tick.who == 1 {
      EditStep(s, st.store, r2, m2, e2, st.threads[1], tick.now);
    }
  }

  lemma {:induction false} AlwaysEditing(s: Store, r1: User, m1: seq<string>, r2: User, m2: seq<string>,
                                         ticks: seq<Tick>)
    requires WellKept(s) && r1.id == r2.id && r1.id in s && Known(m1) && Known(m2)
    requires AgreeOnKept(Named(m1), Named(m2))
    ensures Editing(s, r1.id, r1, m1, r2, m2, Merged(s[r1.id], r1, Named(m1)), Merged(s[r1.id], r2, Named(m2)),
                    Exec(Initial(s, Both(r1, m1, r2, m2)), ticks))
    decreases |ticks|
  {
    if ticks == [] {
      hide Merged, Named;
      var st := Initial(s, Both(r1, m1, r2, m2));
      assert r1.id != 0;
      assert st.threads[0] == UpdateFetch(r1, m1) && st.threads[1] == UpdateFetch(r2, m2);
    } else {
      AlwaysEditing(s, r1, m1, r2, m2, ticks[..|ticks| - 1]);
      hide Editing, Next, WellKept, Merged, Named, AgreeOnKept;
      EditingNext(s, r1, m1, r2, m2, Exec(Initial(s, Both(r1, m1, r2, m2)), ticks[..|ticks| - 1]), ticks[|ticks| - 1]);
    }
  }

  /** What a serial order leaves, with masks that agree: the user as the last call edits it */
  lemma SerialEnds(s: Store, r1: User, m1: seq<string>, r2: User, m2: seq<string>)
    requires WellKept(s) && r1.id == r2.id && r1.id in s && Known(m1) && Known(m2)
    requires AgreeOnKept(Named(m1), Named(m2))
    ensures var e1, e2 := Merged(s[r1.id], r1, Named(m1)), Merged(s[r1.id], r2, Named(m2));
            FirstThenSecond(s, r1, m1, r2, m2)
            == State(s[r1.id := Stored(e2)], [Done(OneUser(e1)), Done(OneUser(e2))])
  {
    var id := r1.id;
    var e1 := Merged(s[id], r1, Named(m1));
    SecondHidesFirst(s[id], r1, r2, Named(m1), Named(m2));
    hide MaskedUpdates.Updated, UpdateReply, Known, Named, Merged, Stored, AgreeOnKept, WellKept;
    UpdateKeepsWellKept(s, r1, m1);
    UpdateSucceeds(s, r1, m1);
    var middle := s[id := Stored(e1)];
    UpdateSucceeds(middle, r2, m2);
    assert middle[id] == Stored(e1);
    Overwritten(s, id, Stored(e1), Stored(Merged(s[id], r2, Named(m2))));
  }

  lemma Overwritten(s: Store, id: Id, a: User, b: User)
    ensures s[id := a][id := b] == s[id := b]
  {
  }

  lemma UpdateSucceeds(s: Store, r: User, mask: seq<string>)
    requires WellKept(s) && r.id in s && Known(mask)
    ensures MaskedUpdates.Updated(s, r, mask) == s[r.id := Stored(Merged(s[r.id], r, Named(mask)))]
    ensures UpdateReply(s, r, mask) == Done(OneUser(Merged(s[r.id], r, Named(mask))))
  {
    hide MaskedUpdates.Updated, UpdateReply, Known, Named, Merged, Stored, WellKept;
    UpdateMeaning(s, r, mask);
  }

  lemma DoneEditing(s: Store, id: Id, r1: User, m1: seq<string>, r2: User, m2: seq<string>,
                    e1: User, e2: User, st: State)
    requires Editing(s, id, r1, m1, r2, m2, e1, e2, st) && Complete(st)
    ensures st.threads == [Done(OneUser(e1)), Done(OneUser(e2))]
    ensures st.store == s[id := Stored(e1)] || st.store == s[id := Stored(e2)]
  {
    hide Stored;
    assert st.threads[0].Done? && st.threads[1].Done?;
  }

  lemma AgreedAreSerial(s: Store, r1: User, m1: seq<string>, r2: User, m2: seq<string>, ticks: seq<Tick>)
    requires WellKept(s) && r1.id == r2.id && r1.id in s && Known(m1) && Known(m2)
    requires AgreeOnKept(Named(m1), Named(m2)) && Complete(Exec(Initial(s, Both(r1, m1, r2, m2)), ticks))
    ensures var end := Exec(Initial(s, Both(r1, m1, r2, m2)), ticks);
            end == FirstThenSecond(s, r1, m1, r2, m2) || end == SecondThenFirst(s, r1, m1, r2, m2)
  {
    assert AgreeOnKept(Named(m2), Named(m1));
    hide Exec, Initial, Both, Merged, Named, Stored, Known, WellKept, AgreeOnKept, Complete, Editing;
    hide FirstThenSecond, SecondThenFirst;
    var end := Exec(Initial(s, Both(r1, m1, r2, m2)), ticks);
    AlwaysEditing(s, r1, m1, r2, m2, ticks);
    DoneEditing(s, r1.id, r1, m1, r2, m2, Merged(s[r1.id], r1, Named(m1)), Merged(s[r1.id], r2, Named(m2)), end);
    SerialEnds(s, r1, m1, r2, m2);
    SerialEnds(s, r2, m2, r1, m1);
  }

  // ---------- A user who is not there ----------

  ghost predicate Missing(s: Store, r1: User, m1: seq<string>, r2: User, m2: seq<string>, st: State) {
    && st.store == s && |st.threads| == 2
    && st.threads[0] in {UpdateFetch(r1, m1), Done(Fail(NotFound))}
    && st.threads[1] in {UpdateFetch(r2, m2), Done(Fail(NotFound))}
  }

  lemma MissingNext(s: Store, r1: User, m1: seq<string>, r2: User, m2: seq<string>, st: State, tick: Tick)
    requires r1.id == r2.id != 0 && r1.id !in s && Missing(s, r1, m1, r2, m2, st)
    ensures Missing(s, r1, m1, r2, m2, Next(st, tick))
  {
    StepUpdateFetch(s, r1, m1, tick.now);
    StepUpdateFetch(s, r2, m2, tick.now);
    StepDone(s, Fail(NotFound), tick.now);
    hide Step;
  }

  lemma {:induction false} AlwaysMissing(s: Store, r1: User, m1: seq<string>, r2: User, m2: seq<string>,
                                         ticks: seq<Tick>)
    requires r1.id == r2.id != 0 && r1.id !in s
    ensures Missing(s, r1, m1, r2, m2, Exec(Initial(s, Both(r1, m1, r2, m2)), ticks))
    decreases |ticks|
  {
    if ticks == [] {
      var st := Initial(s, Both(r1, m1, r2, m2));
      assert st.threads[0] == UpdateFetch(r1, m1) && st.threads[1] == UpdateFetch(r2, m2);
    } else {
      AlwaysMissing(s, r1, m1, r2, m2, ticks[..|ticks| - 1]);
      hide Next, Missing;
      MissingNext(s, r1, m1, r2, m2, Exec(Initial(s, Both(r1, m1, r2, m2)), ticks[..|ticks| - 1]), ticks[|ticks| - 1]);
    }
  }

  lemma MissingAreSerial(s: Store, r1: User, m1: seq<string>, r2: User, m2: seq<string>, ticks: seq<Tick>)
    requires r1.id == r2.id != 0 && r1.id !in s && Complete(Exec(Initial(s, Both(r1, m1, r2, m2)), ticks))
    ensures Exec(Initial(s, Both(r1, m1, r2, m2)), ticks) == FirstThenSecond(s, r1, m1, r2, m2)
  {
    var end := Exec(Initial(s, Both(r1, m1, r2, m2)), ticks);
    AlwaysMissing(s, r1, m1, r2, m2, ticks);
    hide Exec, Initial, Serve;
    assert end.threads[0].Done? && end.threads[1].Done?;
    ServeUpdateUser(s, r1, m1, 0);
    ServeUpdateUser(s, r2, m2, 0);
    assert end.threads == [Done(Fail(NotFound)), Done(Fail(NotFound))];
  }

  // ---------- With masks that do not agree ----------

  /** Both fetch before either writes; last says who writes last. */
  function Crossed(last: nat): seq<Tick> {
    [Tick(0, 0), Tick(1, 0), Tick(if last == 0 then 1 else 0, 0), Tick(last, 0)]
  }

  lemma TwoFetches(s: Store, r1: User, m1: seq<string>, r2: User, m2: seq<string>)
    requires WellKept(s) && r1.id == r2.id && r1.id in s && Known(m1) && Known(m2)
    ensures var e1, e2 := Merged(s[r1.id], r1, Named(m1)), Merged(s[r1.id], r2, Named(m2));
            Next(Next(Initial(s, Both(r1, m1, r2, m2)), Tick(0, 0)), Tick(1, 0))
            == State(s, [UpdateWrite(e1), UpdateWrite(e2)])
  {
    var u := s[r1.id];
    assert Stored(u) == u && r1.id != 0;
    var st := Initial(s, Both(r1, m1, r2, m2));
    assert st.threads == [UpdateFetch(r1, m1), UpdateFetch(r2, m2)];
    EditStep(s, s, r1, m1, Merged(u, r1, Named(m1)), UpdateFetch(r1, m1), 0);
    EditStep(s, s, r2, m2, Merged(u, r2, Named(m2)), UpdateFetch(r2, m2), 0);
    hide Step, Merged, Stored, Known, Named, WellKept, Initial;
    assert Next(st, Tick(0, 0)) == State(s, [UpdateWrite(Merged(u, r1, Named(m1))), UpdateFetch(r2, m2)]);
  }

  lemma TwoWrites(s: Store, id: Id, e1: User, e2: User)
    requires id in s && e1.id == e2.id == id
    ensures var st, done := State(s, [UpdateWrite(e1), UpdateWrite(e2)]), [Done(OneUser(e1)), Done(OneUser(e2))];
            && Next(Next(st, Tick(0, 0)), Tick(1, 0)) == State(s[id := Stored(e2)], done)
            && Next(Next(st, Tick(1, 0)), Tick(0, 0)) == State(s[id := Stored(e1)], done)
  {
    StepUpdateWrite(s, e1, 0);
    StepUpdateWrite(s, e2, 0);
    StepUpdateWrite(s[id := Stored(e1)], e2, 0);
    StepUpdateWrite(s[id := Stored(e2)], e1, 0);
    UpdateWritten(s, e1);
    UpdateWritten(s, e2);
    UpdateWritten(s[id := Stored(e1)], e2);
    UpdateWritten(s[id := Stored(e2)], e1);
    hide Step, Stored, After;
    var st := State(s, [UpdateWrite(e1), UpdateWrite(e2)]);
    assert Next(st, Tick(0, 0)) == State(s[id := Stored(e1)], [Done(OneUser(e1)), UpdateWrite(e2)]);
    assert Next(st, Tick(1, 0)) == State(s[id := Stored(e2)], [UpdateWrite(e1), Done(OneUser(e2))]);
    Overwritten(s, id, Stored(e1), Stored(e2));
    Overwritten(s, id, Stored(e2), Stored(e1));
  }

  /** When both fetch before either writes, the update that is written first is lost, and both callers are told of
      success. */
  lemma UpdateIsLost(s: Store, r1: User, m1: seq<string>, r2: User, m2: seq<string>, last: nat)
    requires WellKept(s) && r1.id == r2.id && r1.id in s && Known(m1) && Known(m2) && last < 2
    ensures var e1, e2 := Merged(s[r1.id], r1, Named(m1)), Merged(s[r1.id], r2, Named(m2));
            Exec(Initial(s, Both(r1, m1, r2, m2)), Crossed(last))
            == State(s[r1.id := Stored(if last == 0 then e1 else e2)], [Done(OneUser(e1)), Done(OneUser(e2))])
  {
    TwoFetches(s, r1, m1, r2, m2);
    var e1, e2 := Merged(s[r1.id], r1, Named(m1)), Merged(s[r1.id], r2, Named(m2));
    assert e1.id == e2.id == r1.id;
    hide Exec, Next, Initial, Merged, Named, Known, Both, WellKept, Stored;
    TwoWrites(s, r1.id, e1, e2);
    ExecFour(Initial(s, Both(r1, m1, r2, m2)),
             Tick(0, 0), Tick(1, 0), Tick(if last == 0 then 1 else 0, 0), Tick(last, 0));
  }

  lemma ExecFour(st: State, a: Tick, b: Tick, c: Tick, d: Tick)
    ensures Exec(st, [a, b, c, d]) == Next(Next(Next(Next(st, a), b), c), d)
  {
    hide Next;
    var one, two, three := [a], [a, b], [a, b, c];
    assert one[..0] == [] && two[..1] == one && three[..2] == two && [a, b, c, d][..3] == three;
    assert Exec(st, one) == Next(st, a);
    assert Exec(st, two) == Next(Exec(st, one), b);
    assert Exec(st, three) == Next(Exec(st, two), c);
  }

  /** A stored user that differs from the request in every field that is kept */
  function Opposite(r: User): User {
    User(r.id, if r.role == 0 then 1 else 0, None, r.username + "x", "", "",
         if r.profile.None? then Some(Values.Profile.Profile("", "", "", None, map[])) else None, r.tags + ["x"],
         if r.metadata == map[] then map["x" := "x"] else map[], if r.status == 0 then 1 else 0,
         if r.lastLogin.None? then Some(0) else None, r.addresses + [None])
  }

  /** A field that only the first mask names has the first request's value after either serial order, and the old
      value when the first update is lost. */
  lemma LossShows(r1: User, r2: User, first: set<Field>, second: set<Field>, f: Field)
    requires f in first && f !in second && f != Email && f != Phone
    ensures var u := Opposite(r1);
            var lost := Stored(Merged(u, r2, second));
            && lost != Stored(Merged(Stored(Merged(u, r1, first)), r2, second))
            && lost != Stored(Merged(Stored(Merged(u, r2, second)), r1, first))
  {
    var u := Opposite(r1);
    var lost := Stored(Merged(u, r2, second));
    var one := Stored(Merged(Stored(Merged(u, r1, first)), r2, second));
    var two := Stored(Merged(lost, r1, first));
    assert |u.username| != |r1.username| && |u.tags| != |r1.tags| && |u.addresses| != |r1.addresses|;
    assert r1.metadata == map[] ==> "x" in u.metadata;
    match f
    case Role => assert lost.role == u.role && one.role == two.role == r1.role;
    case Username => assert lost.username == u.username && one.username == two.username == r1.username;
    case Profile => assert lost.profile == u.profile && one.profile == two.profile == r1.profile;
    case Tags => assert lost.tags == u.tags && one.tags == two.tags == r1.tags;
    case Metadata => assert lost.metadata == u.metadata && one.metadata == two.metadata == r1.metadata;
    case Status => assert lost.status == u.status && one.status == two.status == r1.status;
    case LastLogin => assert lost.lastLogin == u.lastLogin && one.lastLogin == two.lastLogin == r1.lastLogin;
    case Addresses => assert lost.addresses == u.addresses && one.addresses == two.addresses == r1.addresses;
  }

  lemma SerialStores(s: Store, r1: User, m1: seq<string>, r2: User, m2: seq<string>)
    requires WellKept(s) && r1.id == r2.id && r1.id in s && Known(m1) && Known(m2)
    ensures var id, u := r1.id, s[r1.id];
            && FirstThenSecond(s, r1, m1, r2, m2).store
               == s[id := Stored(Merged(Stored(Merged(u, r1, Named(m1))), r2, Named(m2)))]
            && SecondThenFirst(s, r1, m1, r2, m2).store
               == s[id := Stored(Merged(Stored(Merged(u, r2, Named(m2))), r1, Named(m1)))]
  {
    BothUpdates(s, r1, r2, m1, m2);
    BothUpdates(s, r2, r1, m2, m1);
    hide MaskedUpdates.Updated, UpdateReply, Known, Named, Merged, Stored;
  }

  /** When one mask names a field that the other does not, a run from some store ends as no serial order does. */
  lemma LossIsReal(r1: User, m1: seq<string>, r2: User, m2: seq<string>, f: Field) returns (s: Store, ticks: seq<Tick>)
    requires r1.id == r2.id != 0 && Known(m1) && Known(m2)
    requires (f in Named(m1) <==> f !in Named(m2)) && f != Email && f != Phone
    ensures WellKept(s) && Complete(Exec(Initial(s, Both(r1, m1, r2, m2)), ticks))
    ensures Exec(Initial(s, Both(r1, m1, r2, m2)), ticks).store != FirstThenSecond(s, r1, m1, r2, m2).store
    ensures Exec(Initial(s, Both(r1, m1, r2, m2)), ticks).store != SecondThenFirst(s, r1, m1, r2, m2).store
  {
    var last := if f in Named(m1) then 1 else 0;
    var loser := if f in Named(m1) then r1 else r2;
    s, ticks := map[r1.id := Opposite(loser)], Crossed(last);
    if f in Named(m1) {
      LossShows(r1, r2, Named(m1), Named(m2), f);
    } else {
      LossShows(r2, r1, Named(m2), Named(m1), f);
    }
    hide Named, Known, Merged, Opposite, Exec, Initial, Both, Crossed, Stored, WellKept;
    hide FirstThenSecond, SecondThenFirst;
    CrossedDiffers(s, r1, m1, r2, m2, last);
  }

  /** A crossed run that keeps another user than both serial orders ends in another store. */
  lemma CrossedDiffers(s: Store, r1: User, m1: seq<string>, r2: User, m2: seq<string>, last: nat)
    requires WellKept(s) && r1.id == r2.id && r1.id in s && Known(m1) && Known(m2) && last < 2
    requires var u := s[r1.id];
             var kept := Stored(if last == 0 then Merged(u, r1, Named(m1)) else Merged(u, r2, Named(m2)));
             && kept != Stored(Merged(Stored(Merged(u, r1, Named(m1))), r2, Named(m2)))
             && kept != Stored(Merged(Stored(Merged(u, r2, Named(m2))), r1, Named(m1)))
    ensures var end := Exec(Initial(s, Both(r1, m1, r2, m2)), Crossed(last));
            && Complete(end)
            && end.store != FirstThenSecond(s, r1, m1, r2, m2).store
            && end.store != SecondThenFirst(s, r1, m1, r2, m2).store
  {
    hide Named, Known, Merged, Exec, Initial, Both, FirstThenSecond, SecondThenFirst, Crossed, Stored, WellKept;
    var u := s[r1.id];
    var kept := Stored(if last == 0 then Merged(u, r1, Named(m1)) else Merged(u, r2, Named(m2)));
    UpdateIsLost(s, r1, m1, r2, m2, last);
    SerialStores(s, r1, m1, r2, m2);
    MapsDiffer(s, r1.id, kept, Stored(Merged(Stored(Merged(u, r1, Named(m1))), r2, Named(m2))));
    MapsDiffer(s, r1.id, kept, Stored(Merged(Stored(Merged(u, r2, Named(m2))), r1, Named(m1))));
  }

  lemma MapsDiffer(s: Store, id: Id, a: User, b: User)
    requires a != b
    ensures s[id := a] != s[id := b]
  {
    assert s[id := a][id] != s[id := b][id];
  }

  /** Two updates of one user with known masks: from every well kept store and in every complete interleaving, store
      and answers are those of a serial order exactly when the masks name the same fields, apart from email and
      phone, which are not kept. */
  lemma UpdatesAreSerialExactly(r1: User, m1: seq<string>, r2: User, m2: seq<string>)
    requires r1.id == r2.id != 0 && Known(m1) && Known(m2)
    ensures AlwaysSerial(r1, m1, r2, m2) <==> AgreeOnKept(Named(m1), Named(m2))
  {
    if AgreeOnKept(Named(m1), Named(m2)) {
      forall s: Store, ticks: seq<Tick> | WellKept(s) && Complete(Exec(Initial(s, Both(r1, m1, r2, m2)), ticks))
        ensures || Exec(Initial(s, Both(r1, m1, r2, m2)), ticks) == FirstThenSecond(s, r1, m1, r2, m2)
                || Exec(Initial(s, Both(r1, m1, r2, m2)), ticks) == SecondThenFirst(s, r1, m1, r2, m2)
      {
        if r1.id in s {
          AgreedAreSerial(s, r1, m1, r2, m2, ticks);
        } else {
          MissingAreSerial(s, r1, m1, r2, m2, ticks);
        }
      }
    } else {
      var f := Disagreement(Named(m1), Named(m2));
      hide Named, Known, Exec, Initial, FirstThenSecond, SecondThenFirst, Complete;
      var s, ticks := LossIsReal(r1, m1, r2, m2, f);
    }
  }

  lemma Disagreement(first: set<Field>, second: set<Field>) returns (f: Field)
    requires !AgreeOnKept(first, second)
    ensures (f in first <==> f !in second) && f != Email && f != Phone
  {
    var a, b := first - {Email, Phone}, second - {Email, Phone};
    if exists g :: g in a && g !in b {
      f :| f in a && f !in b;
    } else {
      f :| f in b && f !in a;
    }
  }
}
