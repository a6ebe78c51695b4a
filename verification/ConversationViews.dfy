/** Who is told about a new conversation, and under which name, compared with what polling shows. */
module ConversationViews {
  import opened Prelude
  import opened ConversationTables

  /** SELECT id, display_name ... WHERE id = ANY(ids), without the NULL names. */
  function NameMap(t: Tables, ids: set<Uuid>): map<Uuid, string> {
    map u | u in ids && u in t.users && t.users[u].Some? :: t.users[u].value
  }

  /** The display name in the event sent to one recipient. */
  function PushedName(t: Tables, req: Request, recip: Uuid): Option<string> {
    if req.isGroup then None
    else
      var peer := if recip != req.creator then req.creator else if |req.ids| > 0 then req.ids[0] else NIL;
      var names := NameMap(t, Elems(req.ids) + {req.creator});
      if peer in names then Some(names[peer]) else None
  }

  /**
   Names GetConversationsForUser may return for conversation c: the subquery takes any one row of
   another participant (LIMIT 1 without an order), or NULL when there is none.
   */
  ghost predicate MayPoll(t: Tables, c: Uuid, user: Uuid, name: Option<string>) {
    || (exists u | u in Members(t, c) && u in t.users :: u != user && t.users[u] == name)
    || (name.None? && forall u | u in Members(t, c) && u in t.users :: u == user)
  }

  /** The creator first, then the other requested ids, each once. */
  method BuildRecipients(req: Request) returns (recipients: seq<Uuid>)
    ensures Distinct(recipients)
    ensures Elems(recipients) == Elems(req.ids) + {req.creator}
    ensures recipients[0] == req.creator
  {
    var seenRecip := {req.creator};
    recipients := [req.creator];
    var i := 0;
    while i < |req.ids|
      invariant i <= |req.ids|
      invariant Distinct(recipients) && |recipients| > 0 && recipients[0] == req.creator
      invariant Elems(recipients) == seenRecip == Elems(req.ids[..i]) + {req.creator}
    {
      var p := req.ids[i];
      assert req.ids[..i + 1] == req.ids[..i] + [p];
      if p != req.creator && p !in seenRecip {
        assert p !in recipients;
        seenRecip := seenRecip + {p};
        recipients := recipients + [p];
      }
      i := i + 1;
    }
    assert req.ids[..i] == req.ids;
  }

  /** The user-specific views the create handler publishes, one per recipient. */
  method UserViews(t: Tables, req: Request) returns (views: seq<(Uuid, Option<string>)>)
    ensures Distinct(views)
    ensures forall v :: v in views <==> v.0 in Elems(req.ids) + {req.creator} && v.1 == PushedName(t, req, v.0)
  {
    var recipients := BuildRecipients(req);
    var nameMap := NameMap(t, Elems(recipients));
    views := [];
    var i := 0;
    while i < |recipients|
      invariant |views| == i <= |recipients|
      invariant forall k | 0 <= k < i :: views[k] == (recipients[k], PushedName(t, req, recipients[k]))
    {
      var name: Option<string> := None;
      if !req.isGroup {
        var peer: Uuid := NIL;
        if recipients[i] == req.creator {
          if |req.ids| > 0 {
            peer := req.ids[0];
          }
        } else {
          peer := req.creator;
        }
        if peer in nameMap {
          name := Some(nameMap[peer]);
        }
      }
      views := views + [(recipients[i], name)];
      i := i + 1;
    }
    forall v: (Uuid, Option<string>)
      ensures v in views <==> v.0 in Elems(recipients) && v.1 == PushedName(t, req, v.0)
    {
      if v.0 in Elems(recipients) && v.1 == PushedName(t, req, v.0) {
        var k :| 0 <= k < |recipients| && recipients[k] == v.0;
        assert views[k] == v;
      }
    }
  }

  /** `t` accepted the request; `now` is any later state with its conversation in place and names unchanged. */
  ghost predicate Stands(t: Tables, req: Request, now: Tables, id: Uuid) {
    && Refuse(t, req).None?
    && now.users == t.users
    && id in now.conversations
    && Members(now, id) == Wanted(req)
  }

  /** A conversation just created stands. */
  lemma CreatedStands(t: Tables, req: Request, id: Uuid)
    requires Consistent(t) && id !in t.conversations && Refuse(t, req).None?
    ensures Stands(t, req, Created(t, id, req), id)
  {
  }

  /**
   The view pushed for a direct conversation is the one polling returns: for every recipient the
   pushed name is the one and only name the query can yield. The handler turns down direct requests
   with more than one id before they get here.
   */
  lemma DirectPushEqualsPoll(t: Tables, req: Request, now: Tables, id: Uuid, recip: Uuid)
    requires Stands(t, req, now, id)
    requires !req.isGroup && |req.ids| <= 1 && recip in Elems(req.ids) + {req.creator}
    ensures recip in Members(now, id)
    ensures forall name :: MayPoll(now, id, recip, name) <==> name == PushedName(t, req, recip)
  {
    TheOther(req);
    var peer := if recip != req.creator then req.creator else req.ids[0];
    assert peer in Members(now, id) && peer in t.users;
    assert peer in Elems(req.ids) + {req.creator};
  }

  /** A direct request that gets through names exactly one other user. */
  lemma TheOther(req: Request)
    requires |req.ids| <= 1 && |Wanted(req)| == 2
    ensures |req.ids| == 1 && req.ids[0] != req.creator && Wanted(req) == {req.ids[0], req.creator}
  {
    assert |{req.creator}| == 1;
    assert req.ids == [] ==> Wanted(req) == {req.creator};
    assert |req.ids| == 1;
    var p := req.ids[0];
    assert req.ids == [p];
    assert p == NIL || p == req.creator ==> Wanted(req) == {req.creator};
    assert Wanted(req) == {p, req.creator};
  }

  /**
   For a group no name is pushed, which agrees with polling for a participant exactly when none of
   the others has a display name.
   */
  lemma GroupPushEqualsPollExactly(t: Tables, req: Request, now: Tables, id: Uuid, recip: Uuid)
    requires Stands(t, req, now, id) && req.isGroup && recip in Wanted(req)
    ensures (forall name :: MayPoll(now, id, recip, name) <==> name == PushedName(t, req, recip))
            <==> (forall u | u in Wanted(req) && u != recip :: t.users[u].None?)
  {
    if forall name :: MayPoll(now, id, recip, name) <==> name == None {
      forall u | u in Wanted(req) && u != recip
        ensures t.users[u].None?
      {
        assert u in Members(now, id) && u in now.users;
        assert MayPoll(now, id, recip, t.users[u]);
      }
    }
    if forall u | u in Wanted(req) && u != recip :: t.users[u].None? {
      UnnamedPollsNull(t, req, now, id, recip);
    }
  }

  lemma UnnamedPollsNull(t: Tables, req: Request, now: Tables, id: Uuid, recip: Uuid)
    requires Stands(t, req, now, id)
    requires forall u | u in Wanted(req) && u != recip :: t.users[u].None?
    ensures forall name :: MayPoll(now, id, recip, name) <==> name == None
  {
  }

  /** The recipients are the participants exactly when no nil id was requested, or the creator is nil. */
  lemma RecipientsAreParticipantsExactly(req: Request)
    ensures Elems(req.ids) + {req.creator} == Wanted(req) <==> NIL !in req.ids || req.creator == NIL
  {
    if NIL in req.ids {
      assert NIL in Elems(req.ids) + {req.creator};
    }
  }

  /** A group asked for with the nil id: the nil id is notified and takes no part. */
  lemma NilIdIsNotified(title: Option<string>, creator: Uuid, other: Uuid)
    requires creator != NIL
    ensures var req := Request(title, true, creator, [other, NIL]);
            NIL in Elems(req.ids) + {req.creator} && NIL !in Wanted(req)
  {
  }

  /** A group with a named participant: nothing is pushed where polling shows the name. */
  lemma NamedGroupDiffers(t: Tables, req: Request, now: Tables, id: Uuid, recip: Uuid, u: Uuid)
    requires Stands(t, req, now, id) && req.isGroup && recip in Wanted(req)
    requires u in Wanted(req) && u != recip && t.users[u].Some?
    ensures MayPoll(now, id, recip, t.users[u]) && PushedName(t, req, recip) != t.users[u]
  {
  }
}
