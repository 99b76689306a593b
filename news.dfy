/** The owned-article service: users create articles, anyone reads them (each
    single read counts a view), and only an article's owner may update or
    delete it, over an in-memory news table keyed by id. */
module NewsModule {
  import opened Wrappers
  import opened Exceptions

  type Id = string
  /** The creation time `new Date()` supplies. */
  type Timestamp = int

  /** A stored article. */
  datatype News = News(id: Id, title: string, content: string, userId: Id, views: nat, createdAt: Timestamp)

  /** The body of a create request; `author` has no column and is not stored. */
  datatype CreateNewsDto = CreateNewsDto(title: string, content: string, author: Option<string>)

  /** The body of an update request: each field may be left out. */
  datatype UpdateNewsDto = UpdateNewsDto(title: Option<string>, content: Option<string>)

  type NewsTable = map<Id, News>

  /** Every article is stored under its own id. */
  ghost predicate WellKeyed(news: NewsTable) {
    forall id :: id in news ==> news[id].id == id
  }

  function NotFoundMessage(id: Id): string {
    "News with ID " + id + " not found"
  }

  const UpdateDenied := "You can only update your own news"
  const DeleteDenied := "You can only delete your own news"

  /** The ownership guard: only the article's owner may change it. */
  predicate MayMutate(item: News, userId: Id) {
    item.userId == userId
  }

  /** The article `create` builds. */
  function Drafted(dto: CreateNewsDto, userId: Id, id: Id, now: Timestamp): News {
    News(id, dto.title, dto.content, userId, 0, now)
  }

  /** The article after one more view. */
  function Viewed(item: News): News {
    item.(views := item.views + 1)
  }

  /** `Object.assign(item, dto)`: a field is replaced only where the request
      provides it, and nothing else about the article changes. */
  function Patched(item: News, dto: UpdateNewsDto): (r: News)
    ensures r.title == (if dto.title.Some? then dto.title.value else item.title)
    ensures r.content == (if dto.content.Some? then dto.content.value else item.content)
    ensures r.id == item.id && r.userId == item.userId
    ensures r.views == item.views && r.createdAt == item.createdAt
  {
    var withTitle := if dto.title.Some? then item.(title := dto.title.value) else item;
    if dto.content.Some? then withTitle.(content := dto.content.value) else withTitle
  }

  /** The lookup and ownership check that open both `update` and `remove`:
      a missing id and a foreign article both fail with NotFound, each with
      its own message. */
  function OwnedItem(news: NewsTable, id: Id, userId: Id, denial: string): (r: Result<News, HttpException>)
    ensures r.Success? <==> id in news && MayMutate(news[id], userId)
    ensures r.Success? ==> r.value == news[id]
    ensures r.Failure? ==> r.error.NotFound?
    ensures id !in news ==> r == Failure(NotFound(NotFoundMessage(id)))
    ensures id in news && !MayMutate(news[id], userId) ==> r == Failure(NotFound(denial))
  {
    if id !in news then Failure(NotFound(NotFoundMessage(id)))
    else if !MayMutate(news[id], userId) then Failure(NotFound(denial))
    else Success(news[id])
  }

  /** What `findOne` returns: the article with its view counted, which is
      also what it saves. */
  function FindOneReply(news: NewsTable, id: Id): (r: Result<News, HttpException>)
    ensures r.Failure? <==> id !in news
    ensures r.Failure? ==> r.error == NotFound(NotFoundMessage(id))
    ensures r.Success? ==> r.value == Step(news, ReadCall(id))[id]
    ensures r.Success? ==> r.value.views == news[id].views + 1
  {
    if id in news then Success(Viewed(news[id])) else Failure(NotFound(NotFoundMessage(id)))
  }

  /** What `update` returns: for the owner the article with the request
      applied; otherwise the guard's NotFound. */
  function UpdateReply(news: NewsTable, id: Id, dto: UpdateNewsDto, userId: Id): (r: Result<News, HttpException>)
    ensures r.Success? <==> id in news && MayMutate(news[id], userId)
    ensures r.Success? ==> r.value == Patched(news[id], dto)
    ensures r.Failure? ==> r.error == OwnedItem(news, id, userId, UpdateDenied).error
  {
    match OwnedItem(news, id, userId, UpdateDenied)
    case Failure(e) => Failure(e)
    case Success(item) => Success(Patched(item, dto))
  }

  /** The articles `findByAuthor` lists. */
  function ByAuthor(news: NewsTable, userId: Id): set<News> {
    set n | n in news.Values && n.userId == userId
  }

  /** The calls that can change the table. */
  datatype Call =
    | CreateCall(dto: CreateNewsDto, caller: Id, id: Id, now: Timestamp)
    | ReadCall(id: Id)
    | UpdateCall(id: Id, patch: UpdateNewsDto, caller: Id)
    | RemoveCall(id: Id, caller: Id)

  /** The table after one call. `save` of an article whose id is already
      stored overwrites it; an owner's update is saved (see `UpdatePersists`). */
  function Step(news: NewsTable, call: Call): (r: NewsTable)
    ensures call.CreateCall? ==>
      call.id in r && r[call.id].userId == call.caller && r[call.id].views == 0
    ensures !call.CreateCall? && call.id in r ==>
      && call.id in news
      && r[call.id].userId == news[call.id].userId
      && r[call.id].createdAt == news[call.id].createdAt
      && r[call.id].views >= news[call.id].views
    ensures (call.UpdateCall? || call.RemoveCall?) && call.id in news && !MayMutate(news[call.id], call.caller) ==>
      r == news
    ensures call.ReadCall? ==> r.Keys == news.Keys
  {
    match call
    case CreateCall(dto, caller, id, now) => news[id := Drafted(dto, caller, id, now)]
    case ReadCall(id) => if id in news then news[id := Viewed(news[id])] else news
    case UpdateCall(id, patch, caller) =>
      if id in news && MayMutate(news[id], caller) then news[id := Patched(news[id], patch)] else news
    case RemoveCall(id, caller) =>
      if id in news && MayMutate(news[id], caller) then news - {id} else news
  }

  /** The table after a sequence of calls, one after another. */
  function Run(news: NewsTable, calls: seq<Call>): NewsTable
    decreases |calls|
  {
    if calls == [] then news else Run(Step(news, calls[0]), calls[1..])
  }

  /** How many of the calls read article `id`. */
  function Reads(calls: seq<Call>, id: Id): nat
    decreases |calls|
  {
    if calls == [] then 0
    else (if calls[0] == ReadCall(id) then 1 else 0) + Reads(calls[1..], id)
  }

  /** A call by `owner` that updates or deletes article `id`. */
  predicate OwnerMutates(call: Call, id: Id, owner: Id) {
    (call.UpdateCall? || call.RemoveCall?) && call.id == id && call.caller == owner
  }

  /** Every call touches at most its own article: every other article keeps
      its presence and its contents. */
  lemma StepTouchesOnlyItsTarget(news: NewsTable, call: Call, other: Id)
    requires other != call.id
    ensures other in Step(news, call) <==> other in news
    ensures other in news ==> Step(news, call)[other] == news[other]
  {
  }

  /** Every call keeps every article under its own id. */
  lemma {:induction false} RunKeepsWellKeyed(news: NewsTable, calls: seq<Call>)
    requires WellKeyed(news)
    ensures WellKeyed(Run(news, calls))
    decreases |calls|
  {
    if calls != [] {
      var next := Step(news, calls[0]);
      assert WellKeyed(next);
      RunKeepsWellKeyed(next, calls[1..]);
    }
  }

  /** Ownership isolation: unless its owner updates or deletes it (or a
      create reuses its id), an article survives any sequence of calls with
      its title, content, owner and creation time intact, and its view count
      grows by exactly the number of reads. */
  lemma {:induction false} ArticleChangesOnlyThroughOwner(news: NewsTable, calls: seq<Call>, id: Id)
    requires id in news
    requires forall i :: 0 <= i < |calls| ==> !OwnerMutates(calls[i], id, news[id].userId)
    requires forall i :: 0 <= i < |calls| ==> !(calls[i].CreateCall? && calls[i].id == id)
    ensures id in Run(news, calls)
    ensures Run(news, calls)[id] == news[id].(views := news[id].views + Reads(calls, id))
    decreases |calls|
  {
    if calls != [] {
      var next := Step(news, calls[0]);
      assert id in next && next[id].userId == news[id].userId;
      assert next[id] == news[id].(views := news[id].views + (if calls[0] == ReadCall(id) then 1 else 0));
      forall i | 0 <= i < |calls[1..]|
        ensures !OwnerMutates(calls[1..][i], id, next[id].userId)
        ensures !(calls[1..][i].CreateCall? && calls[1..][i].id == id)
      {
        assert calls[1..][i] == calls[i + 1];
      }
      ArticleChangesOnlyThroughOwner(next, calls[1..], id);
    }
  }

  /** An article's owner is never reassigned: as long as no create reuses
      its id, whenever the article is still stored it has its first owner
      and creation time, and at least its first view count. */
  lemma {:induction false} OwnerNeverReassigned(news: NewsTable, calls: seq<Call>, id: Id)
    requires id in news
    requires forall i :: 0 <= i < |calls| ==> !(calls[i].CreateCall? && calls[i].id == id)
    ensures id in Run(news, calls) ==>
      && Run(news, calls)[id].userId == news[id].userId
      && Run(news, calls)[id].createdAt == news[id].createdAt
      && Run(news, calls)[id].views >= news[id].views
    decreases |calls|
  {
    if calls != [] {
      var next := Step(news, calls[0]);
      if id in next {
        forall i | 0 <= i < |calls[1..]|
          ensures !(calls[1..][i].CreateCall? && calls[1..][i].id == id)
        {
          assert calls[1..][i] == calls[i + 1];
        }
        OwnerNeverReassigned(next, calls[1..], id);
      } else {
        NeverRecreated(next, calls[1..], id);
      }
    }
  }

  /** Once gone, an article stays gone unless a create reuses its id. */
  lemma {:induction false} NeverRecreated(news: NewsTable, calls: seq<Call>, id: Id)
    requires id !in news
    requires forall i :: 0 <= i < |calls| ==> !(calls[i].CreateCall? && calls[i].id == id)
    ensures id !in Run(news, calls)
    decreases |calls|
  {
    if calls != [] {
      assert !(calls[0].CreateCall? && calls[0].id == id);
      var next := Step(news, calls[0]);
      forall i | 0 <= i < |calls[1..]|
        ensures !(calls[1..][i].CreateCall? && calls[1..][i].id == id)
      {
        assert calls[1..][i] == calls[i + 1];
      }
      NeverRecreated(next, calls[1..], id);
    }
  }

  /** The guard decides on ownership alone: the owner passes, everyone else
      is refused. */
  lemma OnlyTheOwnerPasses(news: NewsTable, id: Id, owner: Id, other: Id, denial: string)
    requires id in news && news[id].userId == owner && other != owner
    ensures OwnedItem(news, id, owner, denial).Success?
    ensures OwnedItem(news, id, other, denial) == Failure(NotFound(denial))
  {
  }

  /** A refused non-owner gets the same kind of exception as for a missing
      article, but not the same message, so the refusal tells them the
      article exists. */
  lemma {:induction false} RefusalRevealsExistence(news: NewsTable, id: Id, other: Id)
    requires id in news && !MayMutate(news[id], other)
    ensures OwnedItem(news, id, other, UpdateDenied).error.NotFound?
    ensures OwnedItem(news - {id}, id, other, UpdateDenied).error.NotFound?
    ensures OwnedItem(news, id, other, UpdateDenied) != OwnedItem(news - {id}, id, other, UpdateDenied)
    ensures OwnedItem(news, id, other, DeleteDenied) != OwnedItem(news - {id}, id, other, DeleteDenied)
  {
    assert NotFoundMessage(id)[0] == 'N';
    assert UpdateDenied[0] == 'Y' && DeleteDenied[0] == 'Y';
  }

  /** As written, `update` returns the patched article but never saves it:
      a later read still shows the old title. */
  lemma UpdateNotPersisted(news: NewsTable, id: Id, title: string)
    requires id in news && news[id].title != title
    ensures UpdateReply(news, id, UpdateNewsDto(Some(title), None), news[id].userId).value.title == title
    ensures FindOneReply(news, id).value.title != title
  {
  }

  /** With the update saved, the next read returns what the update replied,
      with one more view. */
  lemma UpdatePersists(news: NewsTable, id: Id, dto: UpdateNewsDto, userId: Id)
    requires UpdateReply(news, id, dto, userId).Success?
    ensures FindOneReply(Step(news, UpdateCall(id, dto, userId)), id)
         == Success(Viewed(UpdateReply(news, id, dto, userId).value))
  {
  }

  /** Creating an article adds it to its author's list and to nobody else's. */
  lemma CreateListsUnderAuthor(news: NewsTable, dto: CreateNewsDto, caller: Id, id: Id, now: Timestamp, author: Id)
    requires WellKeyed(news) && id !in news
    ensures ByAuthor(Step(news, CreateCall(dto, caller, id, now)), author)
         == ByAuthor(news, author) + (if author == caller then {Drafted(dto, caller, id, now)} else {})
  {
    var item := Drafted(dto, caller, id, now);
    var after := Step(news, CreateCall(dto, caller, id, now));
    forall n | n in after.Values
      ensures n in news.Values || n == item
    {
      var k :| k in after && after[k] == n;
      if k != id {
        assert news[k] == n;
      }
    }
    forall n | n in news.Values
      ensures n in after.Values
    {
      var k :| k in news && news[k] == n;
      assert after[k] == n;
    }
    assert after[id] == item;
  }

  class NewsService {
    /** The news repository. */
    var news: NewsTable

    ghost predicate Valid()
      reads this
    {
      WellKeyed(news)
    }

    constructor (news: NewsTable)
      requires WellKeyed(news)
      ensures Valid() && this.news == news
    {
      this.news := news;
    }

    /** `create`: stores one new article under the fresh id, owned by the
        caller, with no views; every other article is untouched. */
    method Create(dto: CreateNewsDto, userId: Id, id: Id, now: Timestamp) returns (item: News)
      requires Valid()
      requires id !in news  // randomUUID() hands out an unused id
      modifies this
      ensures Valid()
      ensures item.id == id && item.userId == userId && item.views == 0
      ensures item.title == dto.title && item.content == dto.content && item.createdAt == now
      ensures news == old(news)[id := item]
      ensures news == Step(old(news), CreateCall(dto, userId, id, now))
    {
      item := Drafted(dto, userId, id, now);
      news := news[id := item];
    }

    /** `findAll`: every stored article. */
    method FindAll() returns (items: set<News>)
      ensures forall id :: id in news ==> news[id] in items
      ensures forall n :: n in items ==> exists id :: id in news && news[id] == n
    {
      items := news.Values;
    }

    /** `findOne`: a missing id fails and changes nothing; otherwise exactly
        that article's view count goes up by one and the saved article is
        returned. */
    method FindOne(id: Id) returns (r: Result<News, HttpException>)
      requires Valid()
      modifies this
      ensures Valid()
      ensures r == FindOneReply(old(news), id)
      ensures id !in old(news) ==> news == old(news)
      ensures id in old(news) ==> news == old(news)[id := r.value]
      ensures news == Step(old(news), ReadCall(id))
    {
      if id !in news {
        return Failure(NotFound(NotFoundMessage(id)));
      }
      var item := news[id];
      item := item.(views := item.views + 1);
      news := news[id := item];
      r := Success(item);
    }

    /** `update`, as written: the guard, then the request applied to the
        fetched copy, which is returned but never saved. */
    method Update(id: Id, dto: UpdateNewsDto, userId: Id) returns (r: Result<News, HttpException>)
      ensures r == UpdateReply(news, id, dto, userId)
      ensures r.Success? <==> id in news && MayMutate(news[id], userId)
      ensures r.Success? ==> r.value == Patched(news[id], dto)
      ensures id !in news ==> r == Failure(NotFound(NotFoundMessage(id)))
      ensures id in news && !MayMutate(news[id], userId) ==> r == Failure(NotFound(UpdateDenied))
    {
      var found := OwnedItem(news, id, userId, UpdateDenied);
      if found.Failure? {
        return Failure(found.error);
      }
      r := Success(Patched(found.value, dto));
    }

    /** `update` with the patched article saved, as evidently intended. */
    method UpdateAndSave(id: Id, dto: UpdateNewsDto, userId: Id) returns (r: Result<News, HttpException>)
      requires Valid()
      modifies this
      ensures Valid()
      ensures r == UpdateReply(old(news), id, dto, userId)
      ensures r.Failure? ==> news == old(news)
      ensures r.Success? ==> news == old(news)[id := r.value]
      ensures news == Step(old(news), UpdateCall(id, dto, userId))
    {
      var found := OwnedItem(news, id, userId, UpdateDenied);
      if found.Failure? {
        return Failure(found.error);
      }
      var item := Patched(found.value, dto);
      news := news[id := item];
      r := Success(item);
    }

    /** `remove`: a missing id or a foreign article fails with NotFound and
        changes nothing; the owner's call deletes exactly that article. */
    method Remove(id: Id, userId: Id) returns (r: Result<(), HttpException>)
      requires Valid()
      modifies this
      ensures Valid()
      ensures r.Success? <==> id in old(news) && MayMutate(old(news)[id], userId)
      ensures r.Failure? ==> r.error == OwnedItem(old(news), id, userId, DeleteDenied).error && news == old(news)
      ensures r.Success? ==> news == old(news) - {id}
      ensures news == Step(old(news), RemoveCall(id, userId))
    {
      var found := OwnedItem(news, id, userId, DeleteDenied);
      if found.Failure? {
        return Failure(found.error);
      }
      news := news - {id};
      r := Success(());
    }

    /** `findByAuthor`: exactly the stored articles owned by the user. */
    method FindByAuthor(userId: Id) returns (items: set<News>)
      ensures forall id :: id in news && news[id].userId == userId ==> news[id] in items
      ensures forall n :: n in items ==> n.userId == userId && exists id :: id in news && news[id] == n
    {
      items := ByAuthor(news, userId);
    }
  }
}
