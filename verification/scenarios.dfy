/** The store's unit-test scenarios, replayed against the contracts alone. */
module Scenarios {
  import opened Wrappers
  import opened JsText
  import opened Helpers
  import opened Users

  /** Three users listed two to a page: the first two, in insertion order,
      with a total of three on two pages. */
  method ListingScenario() {
    var store := new UsersService();
    var a := store.Create(CreateUserInput("User 1", "user1@example.com", None), "id-1", "t1");
    var b := store.Create(CreateUserInput("User 2", "user2@example.com", None), "id-2", "t2");
    assert !EmailTaken([a.value], "user2@example.com");
    var c := store.Create(CreateUserInput("User 3", "user3@example.com", Some(Admin)), "id-3", "t3");
    assert !EmailTaken([a.value, b.value], "user3@example.com");
    assert store.users == [a.value, b.value, c.value];

    var all := store.users;
    var query := ListQuery(Some(1), Some(2), None, None);
    var listed := store.FindAll(query);
    assert listed.Success? && ListView(all, query) == all;
    assert PageOf(all, 1, 2) == [a.value, b.value] by {
      assert JsSlice(all, 0, 2) == all[0..2];
    }
    assert listed.value.data == [a.value, b.value];
    assert CeilQuotient(3, 2) == Finite(2) by {
      assert (3 + 2 - 1) / 2 == 2;
    }
    assert listed.value.meta.total == 3 && listed.value.meta.totalPages == Finite(2);
  }

  /** A second user with a taken email is refused. */
  method DuplicateScenario() {
    var store := new UsersService();
    var a := store.Create(CreateUserInput("John Doe", "john@example.com", None), "id-1", "t1");
    assert a.Success? && a.value.role == Regular && store.users == [a.value];
    var dup := store.Create(CreateUserInput("Jane Doe", "john@example.com", None), "id-2", "t2");
    assert store.users[0].email == "john@example.com";
    assert dup == Failure(Duplicate("User", "email"));
  }

  /** An unknown id is not found by update; a removed user is not found
      again. */
  method RemoveScenario() {
    var store := new UsersService();
    var a := store.Create(CreateUserInput("John Doe", "john@example.com", None), "id-1", "t1");
    assert store.users == [a.value];
    var missing := store.Update("non-existent-id", UpdateUserInput(Some("Jane"), None, None), "t2");
    assert !HasId(store.users, "non-existent-id");
    assert missing == Failure(NotFound("User", "non-existent-id"));
    var removed := store.Remove("id-1");
    assert IndexOfId([a.value], "id-1") == 0;
    assert store.users == [];
    var again := store.FindOne("id-1");
    assert again == Failure(NotFound("User", "id-1"));
  }
}
