/** The in-memory user store: the `User` record, the service that creates,
    lists, finds, updates and removes users, and the listing's sort and
    pagination. The generated id and the clock are parameters: `freshId`
    stands for `uuidv4()` and `now` for `new Date().toISOString()`. */
module Users {
  import opened Wrappers
  import opened JsText
  import opened Helpers
  import opened Exceptions

  // ---------------------------------------------------------------------
  // Records and inputs

  /** `UserRole`: 'admin', 'user' or 'guest'. */
  datatype Role = Admin | Regular | Guest

  function RoleName(r: Role): (name: string)
    ensures name in {"admin", "user", "guest"}
  {
    match r
    case Admin => "admin"
    case Regular => "user"
    case Guest => "guest"
  }

  datatype User = User(id: string, name: string, email: string, role: Role, createdAt: string, updatedAt: string)

  /** `CreateUserDto`: the role may be left out. */
  datatype CreateUserInput = CreateUserInput(name: string, email: string, role: Option<Role>)

  /** The update payload: every field may be left out. */
  datatype UpdateUserInput = UpdateUserInput(name: Option<string>, email: Option<string>, role: Option<Role>)

  /** The listing query: page, page size, sort field and direction, each of
      which may be left out. */
  datatype ListQuery = ListQuery(page: Option<int>, perPage: Option<int>, sort: Option<string>, order: Option<string>)

  /** What the store fails with: the two business errors, and the
      `TypeError` thrown when a sort field is probed on an empty store. */
  datatype StoreError =
    | NotFound(entity: string, id: string)
    | Duplicate(entity: string, field: string)
    | SortProbeOnEmpty(field: string)

  /** The exception the store throws for each business error; the probe on
      an empty store is a plain `TypeError`, not an HTTP exception. */
  function ToHttpException(e: StoreError): (x: Option<HttpException>)
    ensures e.NotFound? ==> x.Some? && x.value.status == NOT_FOUND
                            && IsBusinessPayload(x.value, NotFoundMessage(e.entity, e.id))
    ensures e.Duplicate? ==> x.Some? && x.value.status == CONFLICT
                             && IsBusinessPayload(x.value, DuplicateMessage(e.entity, e.field))
    ensures e.SortProbeOnEmpty? ==> x.None?
  {
    match e
    case NotFound(entity, id) => Some(EntityNotFoundException(entity, id))
    case Duplicate(entity, field) => Some(DuplicateEntityException(entity, field))
    case SortProbeOnEmpty(_) => None
  }

  // ---------------------------------------------------------------------
  // Searching the stored sequence

  predicate HasId(s: seq<User>, id: string) {
    exists i :: 0 <= i < |s| && s[i].id == id
  }

  /** `users.find((user) => user.email === email)` finds something. */
  predicate EmailTaken(s: seq<User>, email: string) {
    exists i :: 0 <= i < |s| && s[i].email == email
  }

  /** The same search, skipping users whose id is `id`. */
  predicate EmailTakenByOther(s: seq<User>, email: string, id: string) {
    exists i :: 0 <= i < |s| && s[i].email == email && s[i].id != id
  }

  /** No two stored users share an email. */
  predicate EmailsDistinct(s: seq<User>) {
    forall i, j :: 0 <= i < j < |s| ==> s[i].email != s[j].email
  }

  /** No two stored users share an id. */
  predicate IdsDistinct(s: seq<User>) {
    forall i, j :: 0 <= i < j < |s| ==> s[i].id != s[j].id
  }

  /** `users.findIndex((user) => user.id === id)`: the first index holding
      `id`, or -1 when none does. */
  function IndexOfId(s: seq<User>, id: string): (r: int)
    ensures -1 <= r < |s|
    ensures r == -1 <==> !HasId(s, id)
    ensures r >= 0 ==> s[r].id == id && forall j :: 0 <= j < r ==> s[j].id != id
  {
    if s == [] then -1
    else if s[0].id == id then 0
    else
      var k := IndexOfId(s[1..], id);
      if k == -1 then -1 else k + 1
  }

  /** With distinct ids, the user just appended is found at the end. */
  lemma {:induction false} IndexOfAppended(s: seq<User>, u: User)
    requires !HasId(s, u.id)
    ensures IndexOfId(s + [u], u.id) == |s|
  {
    var t := s + [u];
    assert t[|s|].id == u.id;
    forall j | 0 <= j < |s| ensures t[j].id != u.id {
      assert t[j] == s[j];
    }
  }

  /** With distinct ids, a removed user is no longer found. */
  lemma IndexOfRemoved(s: seq<User>, id: string)
    requires IdsDistinct(s)
    requires IndexOfId(s, id) >= 0
    ensures var i := IndexOfId(s, id);
            IndexOfId(s[..i] + s[i + 1..], id) == -1
  {
    var i := IndexOfId(s, id);
    var t := s[..i] + s[i + 1..];
    forall k | 0 <= k < |t| ensures t[k].id != id {
      if k < i { assert t[k] == s[k]; } else { assert t[k] == s[k + 1]; }
    }
  }

  /** What `update` stores: the old record with the supplied fields laid
      over it and a new `updatedAt`; the id and `createdAt` stay. */
  function Merged(u: User, patch: UpdateUserInput, now: string): (v: User)
    ensures v.id == u.id && v.createdAt == u.createdAt && v.updatedAt == now
    ensures v.name == (if patch.name.Some? then patch.name.value else u.name)
    ensures v.email == (if patch.email.Some? then patch.email.value else u.email)
    ensures v.role == (if patch.role.Some? then patch.role.value else u.role)
  {
    u.(name := patch.name.GetOr(u.name), email := patch.email.GetOr(u.email),
       role := patch.role.GetOr(u.role), updatedAt := now)
  }

  /** `if (updateUserDto.email)`: the email is given and is not the empty
      string. */
  predicate EmailTruthy(patch: UpdateUserInput) {
    patch.email.Some? && patch.email.value != ""
  }

  /** Appending a user whose email is not taken keeps emails distinct. */
  lemma AppendKeepsEmailsDistinct(s: seq<User>, u: User)
    requires EmailsDistinct(s) && !EmailTaken(s, u.email)
    ensures EmailsDistinct(s + [u])
  {
    var t := s + [u];
    forall i, j | 0 <= i < j < |t| ensures t[i].email != t[j].email {
      if j == |s| { assert t[i] == s[i]; }
    }
  }

  /** Replacing the user at index `i` by one whose email no other user has
      keeps emails distinct. */
  lemma ReplaceKeepsEmailsDistinct(s: seq<User>, i: int, v: User)
    requires EmailsDistinct(s) && 0 <= i < |s|
    requires !EmailTakenByOther(s, v.email, s[i].id) && IdsDistinct(s)
    ensures EmailsDistinct(s[i := v])
  {
    var t := s[i := v];
    forall a, b | 0 <= a < b < |t| ensures t[a].email != t[b].email {
      if a == i {
        assert s[b].id != s[i].id;
      } else if b == i {
        assert s[a].id != s[i].id;
      }
    }
  }

  // ---------------------------------------------------------------------
  // The listing's sort

  /** The fields a `User` has, which `sort in sortedUsers[0]` finds. */
  predicate IsUserField(f: string) {
    f in {"id", "name", "email", "role", "createdAt", "updatedAt"}
  }

  /** The properties every object inherits from `Object.prototype`, which
      the `in` operator finds as well. */
  predicate IsInheritedName(f: string) {
    f in {"constructor", "hasOwnProperty", "isPrototypeOf", "propertyIsEnumerable",
          "toLocaleString", "toString", "valueOf", "__proto__", "__defineGetter__",
          "__defineSetter__", "__lookupGetter__", "__lookupSetter__"}
  }

  /** `sort in sortedUsers[0]` on a non-empty store. */
  predicate ProbeHits(f: string) {
    IsUserField(f) || IsInheritedName(f)
  }

  /** `String(user[field] ?? '')`: a field's text, or for an inherited
      property the text of the shared value: `Object.prototype` for
      `__proto__`, the `Object` constructor for `constructor`, and the
      built-in method of that name otherwise. It is the same for every
      user. */
  function SortKey(u: User, f: string): string {
    if f == "id" then u.id
    else if f == "name" then u.name
    else if f == "email" then u.email
    else if f == "role" then RoleName(u.role)
    else if f == "createdAt" then u.createdAt
    else if f == "updatedAt" then u.updatedAt
    else if f == "__proto__" then "[object Object]"
    else if f == "constructor" then "function Object() { [native code] }"
    else "function " + f + "() { [native code] }"
  }

  /** The comparator returns at most zero for `a` before `b`: the keys in
      lexicographic order for "asc", in reverse order otherwise. */
  predicate InOrder(a: User, b: User, f: string, ascending: bool) {
    if ascending then LexLe(SortKey(a, f), SortKey(b, f)) else LexLe(SortKey(b, f), SortKey(a, f))
  }

  lemma InOrderTotal(a: User, b: User, f: string, ascending: bool)
    ensures InOrder(a, b, f, ascending) || InOrder(b, a, f, ascending)
  {
    LexLeTotal(SortKey(a, f), SortKey(b, f));
  }

  lemma InOrderTransitive(a: User, b: User, c: User, f: string, ascending: bool)
    requires InOrder(a, b, f, ascending) && InOrder(b, c, f, ascending)
    ensures InOrder(a, c, f, ascending)
  {
    if ascending {
      LexLeTransitive(SortKey(a, f), SortKey(b, f), SortKey(c, f));
    } else {
      LexLeTransitive(SortKey(c, f), SortKey(b, f), SortKey(a, f));
    }
  }

  predicate SortedBy(s: seq<User>, f: string, ascending: bool) {
    forall i, j :: 0 <= i < j < |s| ==> InOrder(s[i], s[j], f, ascending)
  }

  /** `x` placed before the first user it may precede; users it must follow
      stay ahead of it. */
  function Insert(x: User, s: seq<User>, f: string, ascending: bool): (r: seq<User>)
    ensures |r| == |s| + 1 && multiset(r) == multiset(s) + multiset{x}
  {
    if s == [] then [x]
    else if InOrder(x, s[0], f, ascending) then [x] + s
    else
      assert s == [s[0]] + s[1..];
      [s[0]] + Insert(x, s[1..], f, ascending)
  }

  /** The library's stable sort of the copy, by the comparator of lines
      49-55: insertion from the back, so that users whose keys tie keep
      their order. */
  function SortUsers(s: seq<User>, f: string, ascending: bool): (r: seq<User>)
    ensures |r| == |s| && multiset(r) == multiset(s)
  {
    if s == [] then []
    else
      assert s == [s[0]] + s[1..];
      Insert(s[0], SortUsers(s[1..], f, ascending), f, ascending)
  }

  /** `x` goes in front of a sorted list whose head it may precede. */
  lemma InsertInFront(x: User, s: seq<User>, f: string, ascending: bool)
    requires SortedBy(s, f, ascending) && s != [] && InOrder(x, s[0], f, ascending)
    ensures SortedBy([x] + s, f, ascending)
  {
    var r := [x] + s;
    forall i, j | 0 <= i < j < |r| ensures InOrder(r[i], r[j], f, ascending) {
      if i == 0 && j > 1 { InOrderTransitive(x, s[0], s[j - 1], f, ascending); }
    }
  }

  /** The head of a sorted list may precede `x` and everything else, so it
      may precede the result of inserting `x` into the rest. */
  lemma InsertBehindHead(x: User, s: seq<User>, t: seq<User>, f: string, ascending: bool)
    requires SortedBy(s, f, ascending) && s != [] && InOrder(s[0], x, f, ascending)
    requires SortedBy(t, f, ascending) && multiset(t) == multiset(s[1..]) + multiset{x}
    ensures SortedBy([s[0]] + t, f, ascending)
  {
    var r := [s[0]] + t;
    forall j | 1 <= j < |r| ensures InOrder(s[0], r[j], f, ascending) {
      var y := t[j - 1];
      assert y in multiset(t);
      if y != x {
        assert y in multiset(s[1..]);
        var k :| 0 <= k < |s[1..]| && s[1..][k] == y;
        assert s[k + 1] == y;
      }
    }
  }

  lemma {:induction false} InsertSorted(x: User, s: seq<User>, f: string, ascending: bool)
    requires SortedBy(s, f, ascending)
    ensures SortedBy(Insert(x, s, f, ascending), f, ascending)
  {
    if s == [] {
    } else if InOrder(x, s[0], f, ascending) {
      InsertInFront(x, s, f, ascending);
    } else {
      InOrderTotal(x, s[0], f, ascending);
      InsertSorted(x, s[1..], f, ascending);
      InsertBehindHead(x, s, Insert(x, s[1..], f, ascending), f, ascending);
    }
  }

  /** The sorted copy is in order by the field, both ways round as the
      direction says. */
  lemma {:induction false} SortUsersSorted(s: seq<User>, f: string, ascending: bool)
    ensures SortedBy(SortUsers(s, f, ascending), f, ascending)
  {
    if s != [] {
      SortUsersSorted(s[1..], f, ascending);
      InsertSorted(s[0], SortUsers(s[1..], f, ascending), f, ascending);
    }
  }

  /** When every key is the same, the stable sort changes nothing. */
  lemma {:induction false} SortUsersTies(s: seq<User>, f: string, ascending: bool)
    requires forall i :: 0 <= i < |s| ==> SortKey(s[i], f) == SortKey(s[0], f)
    ensures SortUsers(s, f, ascending) == s
  {
    if s != [] {
      SortUsersTies(s[1..], f, ascending);
      if |s| > 1 {
        LexLeReflexive(SortKey(s[0], f));
        assert SortKey(s[1], f) == SortKey(s[0], f);
      }
      assert s == [s[0]] + s[1..];
    }
  }

  /** An inherited property gives every user the same key. */
  lemma InheritedKeyIsShared(u: User, v: User, f: string)
    requires !IsUserField(f)
    ensures SortKey(u, f) == SortKey(v, f)
  {
  }

  // ---------------------------------------------------------------------
  // The listing's pagination

  /** `sort && ...`: a sort field is given and is not the empty string. */
  predicate SortRequested(query: ListQuery) {
    query.sort.Some? && query.sort.value != ""
  }

  /** `order === 'asc'`, with "asc" the default. */
  predicate Ascending(query: ListQuery) {
    query.order.None? || query.order.value == "asc"
  }

  /** The whole list before slicing: the stored users, sorted when the
      probe finds the field on a non-empty store. */
  function ListView(s: seq<User>, query: ListQuery): (v: seq<User>)
    ensures |v| == |s| && multiset(v) == multiset(s)
  {
    if SortRequested(query) && s != [] && ProbeHits(query.sort.value)
    then SortUsers(s, query.sort.value, Ascending(query))
    else s
  }

  /** Without a sort, or when the sort names no field of `User`, the list
      keeps insertion order; with a field it is ordered by that field's
      text, ascending for "asc" and descending otherwise. */
  lemma ListViewOrder(s: seq<User>, query: ListQuery)
    ensures !(SortRequested(query) && IsUserField(query.sort.value)) ==> ListView(s, query) == s
    ensures SortRequested(query) && IsUserField(query.sort.value) ==>
              SortedBy(ListView(s, query), query.sort.value, Ascending(query))
  {
    if SortRequested(query) && s != [] {
      var f := query.sort.value;
      if IsUserField(f) {
        SortUsersSorted(s, f, Ascending(query));
      } else if ProbeHits(f) {
        forall i | 0 <= i < |s| ensures SortKey(s[i], f) == SortKey(s[0], f) {
          InheritedKeyIsShared(s[i], s[0], f);
        }
        SortUsersTies(s, f, Ascending(query));
      }
    }
  }

  /** `sortedUsers.slice(start, start + perPage)` for page `page`. */
  function PageOf<T>(s: seq<T>, page: int, perPage: int): (r: seq<T>)
    ensures |r| <= |s|
    ensures perPage >= 0 ==> |r| <= perPage
  {
    JsSlice(s, (page - 1) * perPage, (page - 1) * perPage + perPage)
  }

  function Min(a: int, b: int): int { if a < b then a else b }

  function Max(a: int, b: int): int { if a < b then b else a }

  /** For a page and a page size of at least one, a page is the run of
      users starting at `(page - 1) * perPage`, as long as the page size
      allows and what remains of the list. */
  lemma PageOfPositive<T>(s: seq<T>, page: int, perPage: int)
    requires page >= 1 && perPage >= 1
    ensures var start := (page - 1) * perPage;
            && start >= 0
            && |PageOf(s, page, perPage)| == Min(perPage, Max(0, |s| - start))
            && (start < |s| ==> PageOf(s, page, perPage) == s[start..Min(start + perPage, |s|)])
  {
    var start := (page - 1) * perPage;
    MulMonotone(0, page - 1, perPage);
    JsSliceNonNegative(s, start, start + perPage);
  }

  /** Pages 1 to `n`, one after the other. */
  function Pages<T>(s: seq<T>, perPage: int, n: nat): seq<T> {
    if n == 0 then [] else Pages(s, perPage, n - 1) + PageOf(s, n, perPage)
  }

  lemma {:induction false} PagesPrefix<T>(s: seq<T>, perPage: int, n: nat)
    requires perPage >= 1
    ensures Pages(s, perPage, n) == s[..Min(n * perPage, |s|)]
  {
    if n > 0 {
      var start := (n - 1) * perPage;
      MulMonotone(0, n - 1, perPage);
      assert n * perPage == start + perPage;
      PagesPrefix(s, perPage, n - 1);
      assert Pages(s, perPage, n - 1) == s[..Min(start, |s|)];
      PageOfPositive(s, n, perPage);
      if start < |s| {
        var m := Min(start + perPage, |s|);
        assert PageOf(s, n, perPage) == s[start..m];
        assert s[..start] + s[start..m] == s[..m];
      } else {
        assert PageOf(s, n, perPage) == [];
      }
    }
  }

  /** The pages up to `totalPages` hold every user exactly once, in list
      order: they concatenate to the whole list. */
  lemma PagesCover<T>(s: seq<T>, perPage: int)
    requires perPage >= 1
    ensures Pages(s, perPage, CeilQuotient(|s|, perPage).n) == s
  {
    var n := CeilQuotient(|s|, perPage).n;
    PagesPrefix(s, perPage, n);
    assert s[..|s|] == s;
  }

  // ---------------------------------------------------------------------
  // The service

  class UsersService {
    /** The stored users, in insertion order. */
    var users: seq<User>

    constructor()
      ensures users == []
    {
      users := [];
    }

    /** The linear search `findIndex` performs. */
    method FindIndex(id: string) returns (index: int)
      ensures index == IndexOfId(users, id)
    {
      index := 0;
      while index < |users|
        invariant 0 <= index <= |users|
        invariant forall j :: 0 <= j < index ==> users[j].id != id
      {
        if users[index].id == id {
          return;
        }
        index := index + 1;
      }
      index := -1;
    }

    /** The linear search `find` performs for a duplicate email, skipping
        the user whose id is `exceptId` when one is given. */
    method FindEmail(email: string, exceptId: Option<string>) returns (found: bool)
      ensures exceptId.None? ==> (found <==> EmailTaken(users, email))
      ensures exceptId.Some? ==> (found <==> EmailTakenByOther(users, email, exceptId.value))
    {
      found := false;
      var i := 0;
      while i < |users|
        invariant 0 <= i <= |users|
        invariant forall j :: 0 <= j < i ==> users[j].email != email || (exceptId.Some? && users[j].id == exceptId.value)
      {
        if users[i].email == email && (exceptId.None? || users[i].id != exceptId.value) {
          return true;
        }
        i := i + 1;
      }
    }

    /** `create`: refused when the email is taken, otherwise the new record
        (role "user" by default, both timestamps `now`) is appended. */
    method Create(input: CreateUserInput, freshId: string, now: string) returns (r: Result<User, StoreError>)
      modifies this
      ensures EmailTaken(old(users), input.email) ==>
                r == Failure(Duplicate("User", "email")) && users == old(users)
      ensures !EmailTaken(old(users), input.email) ==>
                && r.Success?
                && r.value == User(freshId, input.name, input.email, input.role.GetOr(Regular), now, now)
                && users == old(users) + [r.value]
      ensures EmailsDistinct(old(users)) ==> EmailsDistinct(users)
      ensures IdsDistinct(old(users)) && !HasId(old(users), freshId) ==> IdsDistinct(users)
    {
      var existing := FindEmail(input.email, None);
      if existing {
        return Failure(Duplicate("User", "email"));
      }
      var user := User(freshId, input.name, input.email, input.role.GetOr(Regular), now, now);
      if EmailsDistinct(users) {
        AppendKeepsEmailsDistinct(users, user);
      }
      users := users + [user];
      r := Success(user);
    }

    /** `findAll`: the page of the (possibly sorted) list the query asks
        for, with its metadata; a sort requested on an empty store fails as
        the probe of the first user does. */
    method FindAll(query: ListQuery) returns (r: Result<PaginatedResponse<User>, StoreError>)
      ensures r.Failure? <==> SortRequested(query) && users == []
      ensures r.Failure? ==> r.error == SortProbeOnEmpty(query.sort.value)
      ensures r.Success? ==>
                var page := query.page.GetOr(1);
                var perPage := query.perPage.GetOr(10);
                && r.value.success
                && r.value.data == PageOf(ListView(users, query), page, perPage)
                && r.value.meta.page == page
                && r.value.meta.perPage == perPage
                && r.value.meta.total == |users|
                && r.value.meta.totalPages == CeilQuotient(|users|, perPage)
    {
      var page := query.page.GetOr(1);
      var perPage := query.perPage.GetOr(10);
      var sortedUsers := users;
      if query.sort.Some? && query.sort.value != "" {
        if |sortedUsers| == 0 {
          return Failure(SortProbeOnEmpty(query.sort.value));
        }
        if ProbeHits(query.sort.value) {
          sortedUsers := SortUsers(sortedUsers, query.sort.value, query.order.None? || query.order.value == "asc");
        }
      }
      var total := |sortedUsers|;
      var start := (page - 1) * perPage;
      var paginatedUsers := JsSlice(sortedUsers, start, start + perPage);
      r := Success(CreatePaginatedResponse(paginatedUsers, page, perPage, total));
    }

    /** `findOne`: the first user with the id, or not-found. */
    method FindOne(id: string) returns (r: Result<User, StoreError>)
      ensures !HasId(users, id) <==> r == Failure(NotFound("User", id))
      ensures HasId(users, id) ==> r == Success(users[IndexOfId(users, id)]) && r.value.id == id
    {
      var index := FindIndex(id);
      if index == -1 {
        return Failure(NotFound("User", id));
      }
      r := Success(users[index]);
    }

    /** `update`: not-found for an absent id; a duplicate when a non-empty
        new email belongs to another user; otherwise the record at the same
        index is replaced by the merged one and every other index is left
        alone. */
    method Update(id: string, patch: UpdateUserInput, now: string) returns (r: Result<User, StoreError>)
      modifies this
      ensures !HasId(old(users), id) ==>
                r == Failure(NotFound("User", id)) && users == old(users)
      ensures HasId(old(users), id) && EmailTruthy(patch) && EmailTakenByOther(old(users), patch.email.value, id) ==>
                r == Failure(Duplicate("User", "email")) && users == old(users)
      ensures HasId(old(users), id) && !(EmailTruthy(patch) && EmailTakenByOther(old(users), patch.email.value, id)) ==>
                var i := IndexOfId(old(users), id);
                && r == Success(Merged(old(users)[i], patch, now))
                && users == old(users)[i := r.value]
      ensures IdsDistinct(old(users)) ==> IdsDistinct(users)
      ensures EmailsDistinct(old(users)) && IdsDistinct(old(users)) && patch.email != Some("") ==>
                EmailsDistinct(users)
    {
      var index := FindIndex(id);
      if index == -1 {
        return Failure(NotFound("User", id));
      }
      if patch.email.Some? && patch.email.value != "" {
        var existing := FindEmail(patch.email.value, Some(id));
        if existing {
          return Failure(Duplicate("User", "email"));
        }
      }
      var existingUser := users[index];
      var updatedUser := Merged(existingUser, patch, now);
      if EmailsDistinct(users) && IdsDistinct(users) && patch.email != Some("") {
        if patch.email.None? {
          assert !EmailTakenByOther(users, updatedUser.email, existingUser.id);
        }
        ReplaceKeepsEmailsDistinct(users, index, updatedUser);
      }
      users := users[index := updatedUser];
      r := Success(updatedUser);
    }

    /** `remove`: not-found for an absent id; otherwise exactly that index
        is deleted and the rest keep their order. */
    method Remove(id: string) returns (r: Result<(), StoreError>)
      modifies this
      ensures !HasId(old(users), id) ==>
                r == Failure(NotFound("User", id)) && users == old(users)
      ensures HasId(old(users), id) ==>
                var i := IndexOfId(old(users), id);
                r.Success? && users == old(users)[..i] + old(users)[i + 1..]
      ensures EmailsDistinct(old(users)) ==> EmailsDistinct(users)
      ensures IdsDistinct(old(users)) ==> IdsDistinct(users)
    {
      var index := FindIndex(id);
      if index == -1 {
        return Failure(NotFound("User", id));
      }
      users := users[..index] + users[index + 1..];
      r := Success(());
    }
  }
}
