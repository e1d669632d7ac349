/** The private consultation threads ("talks") page: every user owns one
    talk with the staff. The `show` action runs a chain of filters that
    loads the talk, works out which user the page is about and who the
    participants are, and then lets only an admin or the talk's owner see
    it; anyone else is sent to their own talk. The admin-only `index`
    action normalises its `target` parameter. */
module Talks {
  import opened Wrappers
  import Collections
  import Targets

  datatype User = User(id: int, admin: bool)

  datatype Talk = Talk(id: int, userId: int)

  /** The rows of the users and talks tables. */
  datatype Database = Database(users: seq<User>, talks: seq<Talk>)

  /** How a request ends. A before-action that produces one of the
      redirects (or the not-found error of `Talk.find`) halts the chain. */
  datatype Response =
    | Rendered
    | RedirectToTalk(talkId: int)
    | RedirectToLogin
    | AdminLoginRequired
    | NotFound

  /** Ids are unique and every user owns exactly one talk. */
  ghost predicate WellFormed(db: Database)
  {
    && DistinctUserIds(db.users)
    && DistinctTalks(db.talks)
    && (forall u :: u in db.users ==> OwnsTalk(db.talks, u.id))
  }

  /** No two users share an id. */
  ghost predicate DistinctUserIds(users: seq<User>)
    decreases |users|
  {
    users != [] ==>
      && (forall v :: v in users[1..] ==> v.id != users[0].id)
      && DistinctUserIds(users[1..])
  }

  /** No two talks share an id or an owner. */
  ghost predicate DistinctTalks(talks: seq<Talk>)
    decreases |talks|
  {
    talks != [] ==>
      && (forall t :: t in talks[1..] ==> t.id != talks[0].id && t.userId != talks[0].userId)
      && DistinctTalks(talks[1..])
  }

  ghost predicate OwnsTalk(talks: seq<Talk>, userId: int)
  {
    exists t :: t in talks && t.userId == userId
  }

  // ---------------------------------------------------------------------
  // Lookups

  /** `Talk.find(id)`: None when no talk has that id. */
  function FindTalk(db: Database, id: int): (r: Option<Talk>)
    ensures r.Some? ==> r.value in db.talks && r.value.id == id
    ensures r.None? <==> forall t :: t in db.talks ==> t.id != id
  {
    Collections.Find(db.talks, (t: Talk) => t.id == id)
  }

  /** `@talk.user`: the owner of a talk, nil when no user has its
      `user_id`. */
  function OwnerOf(db: Database, talk: Talk): (r: Option<User>)
    ensures r.Some? ==> r.value in db.users && r.value.id == talk.userId
    ensures r.None? <==> forall u :: u in db.users ==> u.id != talk.userId
  {
    Collections.Find(db.users, (u: User) => u.id == talk.userId)
  }

  /** `current_user.talk`: the talk a user owns. */
  function TalkOf(db: Database, user: User): (t: Talk)
    requires WellFormed(db) && user in db.users
    ensures t in db.talks && t.userId == user.id
  {
    Collections.Find(db.talks, (t: Talk) => t.userId == user.id).value
  }

  /** Two rows of a table with unique ids that share an id are one row. */
  lemma UniqueUserIds(db: Database, a: User, b: User)
    requires WellFormed(db) && a in db.users && b in db.users && a.id == b.id
    ensures a == b
  {
    SameIdSameUser(db.users, a, b);
  }

  lemma {:induction false} SameIdSameUser(users: seq<User>, a: User, b: User)
    requires DistinctUserIds(users)
    requires a in users && b in users && a.id == b.id
    ensures a == b
  {
    assert users == [users[0]] + users[1..];
    if a != users[0] && b != users[0] {
      SameIdSameUser(users[1..], a, b);
    }
  }

  lemma UniqueTalkIds(db: Database, a: Talk, b: Talk)
    requires WellFormed(db) && a in db.talks && b in db.talks && a.id == b.id
    ensures a == b
  {
    SameIdSameTalk(db.talks, a, b);
  }

  lemma {:induction false} SameIdSameTalk(talks: seq<Talk>, a: Talk, b: Talk)
    requires DistinctTalks(talks)
    requires a in talks && b in talks && a.id == b.id
    ensures a == b
  {
    assert talks == [talks[0]] + talks[1..];
    if a != talks[0] && b != talks[0] {
      SameIdSameTalk(talks[1..], a, b);
    }
  }

  // ---------------------------------------------------------------------
  // The decisions inside the filters

  /** `current_user.admin? || @talk.user == current_user`. */
  predicate MayShow(viewer: User, talk: Talk)
  {
    viewer.admin || talk.userId == viewer.id
  }

  /** For a stored viewer, comparing ids is the same test as comparing the
      talk's owner record with the viewer. */
  lemma MayShowIffOwnerIsViewer(db: Database, viewer: User, talk: Talk)
    requires WellFormed(db) && viewer in db.users
    ensures MayShow(viewer, talk) <==> viewer.admin || OwnerOf(db, talk) == Some(viewer)
  {
    if talk.userId == viewer.id {
      UniqueUserIds(db, viewer, OwnerOf(db, talk).value);
    }
  }

  /** `@user`: an admin sees the talk's owner, anyone else themself. */
  function DisplayedUser(viewer: User, owner: Option<User>): (u: Option<User>)
    ensures viewer.admin ==> u == owner
    ensures !viewer.admin ==> u == Some(viewer)
  {
    if viewer.admin then owner else Some(viewer)
  }

  /** Whenever the page may be shown, the user it is about is the talk's
      owner: an admin is shown the owner, and a non-admin who may see the
      page is the owner. */
  lemma DisplayedUserIsOwnerWhenShown(db: Database, viewer: User, talk: Talk)
    requires WellFormed(db) && viewer in db.users && talk in db.talks
    requires MayShow(viewer, talk)
    ensures DisplayedUser(viewer, OwnerOf(db, talk)) == OwnerOf(db, talk)
    ensures !viewer.admin ==> OwnerOf(db, talk) == Some(viewer)
  {
    if !viewer.admin {
      UniqueUserIds(db, viewer, OwnerOf(db, talk).value);
    }
  }

  ghost predicate IsAdminId(users: seq<User>, id: int)
  {
    exists u :: u in users && u.admin && u.id == id
  }

  /** `User.admins.ids`. */
  function AdminIds(users: seq<User>): (ids: seq<int>)
    ensures forall x {:trigger x in ids} :: x in ids <==> IsAdminId(users, x)
  {
    var admins := Collections.Filter(users, (u: User) => u.admin);
    var ids := seq(|admins|, i requires 0 <= i < |admins| => admins[i].id);
    forall x ensures x in ids <==> IsAdminId(users, x) {
      if x in ids {
        var i :| 0 <= i < |ids| && ids[i] == x;
        assert admins[i] in admins;
      }
      if exists u :: u in users && u.admin && u.id == x {
        var u :| u in users && u.admin && u.id == x;
        assert u in admins;
        var i :| 0 <= i < |admins| && admins[i] == u;
        assert ids[i] == x;
      }
    }
    ids
  }

  /** `User.admins.ids.push(@talk.user_id)`: the ids the member query
      selects; the owner's id appears twice when the owner is an admin. */
  function MemberIds(users: seq<User>, ownerId: int): (ids: seq<int>)
    ensures forall x {:trigger x in ids} :: x in ids <==> x == ownerId || IsAdminId(users, x)
  {
    AdminIds(users) + [ownerId]
  }

  /** `order(:id)`. */
  predicate IdLeq(a: User, b: User)
  {
    a.id <= b.id
  }

  lemma IdLeqIsTotalPreorder()
    ensures Collections.TotalPreorder(IdLeq)
  {
  }

  /** `@members`: the users whose id is among the member ids, ordered by id. */
  function Members(users: seq<User>, ownerId: int): (r: seq<User>)
    ensures forall u {:trigger u in r} :: u in r <==> u in users && u.id in MemberIds(users, ownerId)
    ensures Collections.SortedBy(r, IdLeq)
    ensures multiset(r) <= multiset(users)
  {
    var ids := MemberIds(users, ownerId);
    var selected := Collections.Filter(users, (u: User) => u.id in ids);
    IdLeqIsTotalPreorder();
    var sorted := Collections.SortBy(selected, IdLeq);
    forall u ensures u in sorted <==> u in users && u.id in ids {
      calc {
        u in sorted;
        u in multiset(sorted);
        u in multiset(selected);
        u in selected;
      }
    }
    sorted
  }

  /** A table with unique ids holds each row at most once. */
  lemma {:induction false} AtMostOnce(users: seq<User>, u: User)
    requires DistinctUserIds(users)
    ensures multiset(users)[u] <= 1
  {
    if users != [] {
      assert users == [users[0]] + users[1..];
      AtMostOnce(users[1..], u);
    }
  }

  /** A value at two positions of a sequence occurs there at least twice. */
  lemma TwiceAtTwoPositions(s: seq<User>, i: int, j: int)
    requires 0 <= i < j < |s| && s[i] == s[j]
    ensures multiset(s)[s[i]] >= 2
  {
    assert s == s[..j] + s[j..];
    assert s[i] in s[..j];
    assert s[j] in s[j..];
  }

  /** The member list holds every admin and the talk owner and nobody
      else. */
  lemma MembersAreAdminsAndOwner(db: Database, ownerId: int)
    requires WellFormed(db)
    ensures forall u :: u in Members(db.users, ownerId) <==> u in db.users && (u.admin || u.id == ownerId)
  {
    var r := Members(db.users, ownerId);
    forall u | u in db.users && u in r && !u.admin && u.id != ownerId ensures false {
      var a :| a in db.users && a.admin && a.id == u.id;
      UniqueUserIds(db, a, u);
    }
  }

  /** Member ids strictly ascend, so each member appears once even when
      the owner is also an admin. */
  lemma MembersStrictlyAscending(db: Database, ownerId: int)
    requires WellFormed(db)
    ensures var r := Members(db.users, ownerId); forall i, j :: 0 <= i < j < |r| ==> r[i].id < r[j].id
  {
    var r := Members(db.users, ownerId);
    DistinctIdsWithin(r, db.users);
  }

  /** Drawn from a table with unique ids, a sequence has no two entries
      with one id. */
  lemma DistinctIdsWithin(r: seq<User>, users: seq<User>)
    requires DistinctUserIds(users)
    requires multiset(r) <= multiset(users) && Collections.SortedBy(r, IdLeq)
    ensures forall i, j :: 0 <= i < j < |r| ==> r[i].id < r[j].id
  {
    forall i, j | 0 <= i < j < |r| ensures r[i].id < r[j].id {
      if r[i].id == r[j].id {
        assert r[i] in multiset(r) && r[j] in multiset(r);
        SameIdSameUser(users, r[i], r[j]);
        TwiceAtTwoPositions(r, i, j);
        AtMostOnce(users, r[i]);
      }
    }
  }

  // ---------------------------------------------------------------------
  // Outcomes of the two actions

  /** The outcome of `show` for the talk with id `talkId`: log in first,
      then the talk must exist, then only an admin or the owner sees it
      and anyone else is sent to their own talk. */
  function ShowResponse(db: Database, viewer: Option<User>, talkId: int): (r: Response)
    requires WellFormed(db) && (viewer.Some? ==> viewer.value in db.users)
    ensures r != AdminLoginRequired
    ensures r == RedirectToLogin <==> viewer.None?
    ensures r == NotFound <==> viewer.Some? && FindTalk(db, talkId).None?
    ensures r.RedirectToTalk? ==> viewer.Some? && r.talkId == TalkOf(db, viewer.value).id
    ensures r == Rendered ==> viewer.Some? && FindTalk(db, talkId).Some? && MayShow(viewer.value, FindTalk(db, talkId).value)
  {
    if viewer.None? then RedirectToLogin
    else match FindTalk(db, talkId)
      case None => NotFound
      case Some(t) =>
        if MayShow(viewer.value, t) then Rendered else RedirectToTalk(TalkOf(db, viewer.value).id)
  }

  /** The page is rendered exactly when the viewer is an admin or owns
      the talk; otherwise the viewer is redirected to their own talk,
      which is never the one requested. */
  lemma ShowRenderedIffAdminOrOwner(db: Database, viewer: User, talk: Talk)
    requires WellFormed(db) && viewer in db.users && talk in db.talks
    ensures ShowResponse(db, Some(viewer), talk.id) == Rendered <==> viewer.admin || talk.userId == viewer.id
    ensures ShowResponse(db, Some(viewer), talk.id) != Rendered ==>
              ShowResponse(db, Some(viewer), talk.id) == RedirectToTalk(TalkOf(db, viewer).id)
              && TalkOf(db, viewer).id != talk.id
  {
    var found := FindTalk(db, talk.id).value;
    UniqueTalkIds(db, found, talk);
    if !MayShow(viewer, talk) && TalkOf(db, viewer).id == talk.id {
      UniqueTalkIds(db, TalkOf(db, viewer), talk);
    }
  }

  /** `index`'s effective target: kept when listed in `targets`,
      otherwise `all`. */
  function IndexTarget(raw: Option<string>, targets: seq<string>): (t: string)
    ensures t == "all" || (raw.Some? && t == raw.value && t in targets)
    ensures raw.Some? && raw.value in targets ==> t == raw.value
  {
    Targets.Normalize(raw, targets, "all")
  }

  /** When `all` is itself a listed target, the effective target is listed
      and normalising it again changes nothing. */
  lemma IndexTargetIdempotent(raw: Option<string>, targets: seq<string>)
    requires "all" in targets
    ensures IndexTarget(raw, targets) in targets
    ensures IndexTarget(Some(IndexTarget(raw, targets)), targets) == IndexTarget(raw, targets)
  {
    Targets.NormalizeAllowed(raw, targets, "all");
    Targets.NormalizeIdempotent(raw, targets, "all");
  }

  // ---------------------------------------------------------------------
  // The controller for one request

  class TalksController {
    const db: Database
    const currentUser: Option<User>
    var talk: Option<Talk>
    var user: Option<User>
    var members: seq<User>
    var target: Option<string>
    var response: Option<Response>

    ghost predicate Valid()
      reads this
    {
      && WellFormed(db)
      && (currentUser.Some? ==> currentUser.value in db.users)
      && (talk.Some? ==> talk.value in db.talks)
    }

    /** A fresh controller for a request by `currentUser` (None when
        nobody is logged in). */
    constructor (db: Database, currentUser: Option<User>)
      requires WellFormed(db) && (currentUser.Some? ==> currentUser.value in db.users)
      ensures Valid() && this.db == db && this.currentUser == currentUser
      ensures talk.None? && user.None? && members == [] && target.None? && response.None?
    {
      this.db := db;
      this.currentUser := currentUser;
      talk, user, members, target, response := None, None, [], None, None;
    }

    /** `require_login`: halts with a redirect to the login page when
        nobody is logged in. */
    method RequireLogin()
      requires Valid()
      modifies this`response
      ensures Valid()
      ensures response == if currentUser.None? then Some(RedirectToLogin) else old(response)
    {
      if currentUser.None? {
        response := Some(RedirectToLogin);
      }
    }

    /** `require_admin_login`: halts unless an admin is logged in. */
    method RequireAdminLogin()
      requires Valid()
      modifies this`response
      ensures Valid()
      ensures response == if currentUser.Some? && currentUser.value.admin then old(response) else Some(AdminLoginRequired)
    {
      if !(currentUser.Some? && currentUser.value.admin) {
        response := Some(AdminLoginRequired);
      }
    }

    /** `set_talk`: loads the requested talk, or halts with not-found. */
    method SetTalk(id: int)
      requires Valid()
      modifies this`talk, this`response
      ensures Valid()
      ensures talk == FindTalk(db, id)
      ensures response == if talk.None? then Some(NotFound) else old(response)
    {
      talk := FindTalk(db, id);
      if talk.None? {
        response := Some(NotFound);
      }
    }

    /** `set_user`. */
    method SetUser()
      requires Valid() && currentUser.Some? && talk.Some?
      modifies this`user
      ensures Valid()
      ensures user == DisplayedUser(currentUser.value, OwnerOf(db, talk.value))
    {
      user := DisplayedUser(currentUser.value, OwnerOf(db, talk.value));
    }

    /** `set_members`. */
    method SetMembers()
      requires Valid() && talk.Some?
      modifies this`members
      ensures Valid()
      ensures members == Members(db.users, talk.value.userId)
    {
      members := Members(db.users, talk.value.userId);
    }

    /** `allow_show_talk_page_only_admin`: halts with a redirect to the
        viewer's own talk unless the viewer may see this one. */
    method AllowShowTalkPageOnlyAdmin()
      requires Valid() && currentUser.Some? && talk.Some?
      modifies this`response
      ensures Valid()
      ensures response == if MayShow(currentUser.value, talk.value) then old(response)
                          else Some(RedirectToTalk(TalkOf(db, currentUser.value).id))
    {
      if !MayShow(currentUser.value, talk.value) {
        response := Some(RedirectToTalk(TalkOf(db, currentUser.value).id));
      }
    }

    /** `show` with its before-action chain: require_login, set_talk,
        set_user, set_members, allow_show_talk_page_only_admin, each run
        only while no earlier one has responded; the action itself
        renders. */
    method Show(id: int)
      requires Valid() && response.None?
      modifies this`talk, this`user, this`members, this`response
      ensures Valid()
      ensures response == Some(ShowResponse(db, currentUser, id))
      ensures currentUser.None? ==> talk == old(talk) && user == old(user) && members == old(members)
      ensures currentUser.Some? ==> talk == FindTalk(db, id)
      ensures currentUser.Some? && talk.None? ==> user == old(user) && members == old(members)
      ensures currentUser.Some? && talk.Some? ==>
                && user == DisplayedUser(currentUser.value, OwnerOf(db, talk.value))
                && members == Members(db.users, talk.value.userId)
      ensures response == Some(Rendered) ==>
                talk.Some? && talk.value.id == id && user == OwnerOf(db, talk.value)
    {
      RequireLogin();
      if response.Some? {
        assert ShowResponse(db, currentUser, id) == RedirectToLogin;
        return;
      }
      var viewer := currentUser.value;
      SetTalk(id);
      if response.Some? {
        assert talk.None? && user == old(user) && members == old(members);
        assert ShowResponse(db, currentUser, id) == NotFound;
        return;
      }
      var t := talk.value;
      assert FindTalk(db, id) == Some(t);
      SetUser();
      SetMembers();
      ghost var shownUser, shownMembers := user, members;
      assert response.None? && talk == Some(t);
      AllowShowTalkPageOnlyAdmin();
      assert user == shownUser && members == shownMembers;
      if response.None? {
        DisplayedUserIsOwnerWhenShown(db, viewer, t);
        response := Some(Rendered);
      } else {
        assert !MayShow(viewer, t);
        assert ShowResponse(db, currentUser, id) == RedirectToTalk(TalkOf(db, viewer).id);
      }
    }

    /** `index` behind `require_admin_login`: only an admin gets a
        target, the one `IndexTarget` chooses. */
    method Index(raw: Option<string>, targets: seq<string>)
      requires Valid() && response.None?
      modifies this`target, this`response
      ensures Valid()
      ensures currentUser.Some? && currentUser.value.admin ==>
                target == Some(IndexTarget(raw, targets)) && response == Some(Rendered)
      ensures !(currentUser.Some? && currentUser.value.admin) ==>
                target == old(target) && response == Some(AdminLoginRequired)
    {
      RequireAdminLogin();
      if response.None? {
        target := Some(IndexTarget(raw, targets));
        response := Some(Rendered);
      }
    }
  }
}
