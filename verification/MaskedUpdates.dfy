/** UpdateUser on the store: what one call changes, and how two of them combine. */
module MaskedUpdates {
  import opened Values
  import opened FieldMask
  import opened StoreSpec
  import opened Handlers

  /** The store after UpdateUser, alone */
  function Updated(s: Store, req: User, mask: seq<string>): Store {
    Serve(s, UpdateUser(Some(req), mask), 0).0
  }

  function UpdateReply(s: Store, req: User, mask: seq<string>): Local {
    Serve(s, UpdateUser(Some(req), mask), 0).1
  }

  lemma UpdateWritten(s: Store, u: User)
    requires u.id in s
    ensures After(s, Update(u), 0) == s[u.id := Stored(u)]
  {
  }

  /** On a stored user a known mask replaces exactly the named fields, email and phone being dropped from the
      copy that is kept, though not from the answer; id and create date stay. Every refusal (id 0, no such
      user, an unknown path) leaves the store as it was. */
  lemma UpdateMeaning(s: Store, req: User, mask: seq<string>)
    requires WellKept(s)
    ensures var merged := if req.id in s then Merged(s[req.id], req, Named(mask)) else req;
            if req.id in s && Known(mask) then
              && Updated(s, req, mask) == s[req.id := Stored(merged)] == s[req.id := merged.(email := "", phone := "")]
              && UpdateReply(s, req, mask) == Done(OneUser(merged))
              && merged.id == req.id && merged.createDate == s[req.id].createDate
            else
              && Updated(s, req, mask) == s
              && UpdateReply(s, req, mask).Done? && UpdateReply(s, req, mask).response.Fail?
  {
    hide Serve, Edited, Known, Named, Merged, After;
    ServeUpdateUser(s, req, mask, 0);
    if req.id in s {
      MaskMeaning(s[req.id], req, mask);
      if Known(mask) {
        UpdateWritten(s, Merged(s[req.id], req, Named(mask)));
      }
    }
  }

  lemma StoredMergeTwice(u: User, req: User, first: set<Field>, second: set<Field>)
    ensures Stored(Merged(Stored(Merged(u, req, first)), req, second)) == Stored(Merged(u, req, first + second))
  {
  }

  lemma MergeDisjoint(u: User, r1: User, r2: User, first: set<Field>, second: set<Field>)
    requires first !! second
    ensures Stored(Merged(Stored(Merged(u, r1, first)), r2, second))
         == Stored(Merged(Stored(Merged(u, r2, second)), r1, first))
  {
  }

  lemma UpdateKeepsWellKept(s: Store, req: User, mask: seq<string>)
    requires WellKept(s)
    ensures WellKept(Updated(s, req, mask))
  {
    UpdateMeaning(s, req, mask);
    hide Updated, UpdateReply, Known, Named;
  }

  /** The second answer lacks an email or phone that only the first mask named: the storage has dropped it. */
  predicate ContactSurvives(req: User, first: set<Field>, second: set<Field>) {
    && (Email in first && Email !in second ==> req.email == "")
    && (Phone in first && Phone !in second ==> req.phone == "")
  }

  /** Two updates from the same request leave the store that one update with the union of their masks
      leaves; the answers agree exactly when no email or phone is lost on the way. */
  lemma UpdatesCompose(s: Store, req: User, m1: seq<string>, m2: seq<string>, union: seq<string>)
    requires WellKept(s) && Known(m1) && Known(m2) && Known(union) && Named(union) == Named(m1) + Named(m2)
    ensures Updated(Updated(s, req, m1), req, m2) == Updated(s, req, union)
    ensures req.id in s ==>
              (UpdateReply(Updated(s, req, m1), req, m2) == UpdateReply(s, req, union)
               <==> ContactSurvives(req, Named(m1), Named(m2)))
  {
    hide Updated, UpdateReply, Known, Named, Merged, Stored, ContactSurvives;
    UpdateKeepsWellKept(s, req, m1);
    UpdateMeaning(s, req, m1);
    UpdateMeaning(Updated(s, req, m1), req, m2);
    UpdateMeaning(s, req, union);
    if req.id in s {
      StoredMergeTwice(s[req.id], req, Named(m1), Named(m2));
      AnswersAgree(s[req.id], req, Named(m1), Named(m2));
    }
  }

  lemma AnswersAgree(u: User, req: User, first: set<Field>, second: set<Field>)
    requires Stored(u) == u
    ensures Merged(Stored(Merged(u, req, first)), req, second) == Merged(u, req, first + second)
            <==> ContactSurvives(req, first, second)
  {
  }

  lemma BothUpdates(s: Store, r1: User, r2: User, m1: seq<string>, m2: seq<string>)
    requires WellKept(s) && r1.id == r2.id && Known(m1) && Known(m2)
    ensures Updated(Updated(s, r1, m1), r2, m2)
         == if r1.id in s
            then s[r1.id := Stored(Merged(Stored(Merged(s[r1.id], r1, Named(m1))), r2, Named(m2)))]
            else s
  {
    hide Updated, UpdateReply, Known, Named, Merged, Stored;
    UpdateKeepsWellKept(s, r1, m1);
    UpdateMeaning(s, r1, m1);
    UpdateMeaning(Updated(s, r1, m1), r2, m2);
  }

  /** Updates of one user with disjoint masks commute, whatever the two requests hold. */
  lemma DisjointUpdatesCommute(s: Store, r1: User, r2: User, m1: seq<string>, m2: seq<string>)
    requires WellKept(s) && r1.id == r2.id && Known(m1) && Known(m2) && Named(m1) !! Named(m2)
    ensures Updated(Updated(s, r1, m1), r2, m2) == Updated(Updated(s, r2, m2), r1, m1)
  {
    hide Updated, UpdateReply, Known, Named, Merged, Stored;
    BothUpdates(s, r1, r2, m1, m2);
    BothUpdates(s, r2, r1, m2, m1);
    if r1.id in s {
      MergeDisjoint(s[r1.id], r1, r2, Named(m1), Named(m2));
    }
  }
}
