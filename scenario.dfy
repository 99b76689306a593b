/** The end-to-end walk-through of the two services together: two users sign
    up, the first creates an article, and only the first may change it. The
    ids stand for what `randomUUID()` hands out. */
module Scenario {
  import opened Wrappers
  import opened Exceptions
  import AuthModule
  import NewsModule

  method AliceAndBob(crypto: AuthModule.Crypto, aliceId: string, bobId: string, spareId: string,
                     articleId: string, salt: nat, now: int)
    requires AuthModule.Sound(crypto)
    requires aliceId != bobId && spareId != aliceId && spareId != bobId
  {
    var auth := new AuthModule.AuthService(map[], crypto);
    var alice := auth.SignUp("alice@example.com", "pw123", "Alice", aliceId, salt);
    assert alice.Success? && alice.value.user.id == aliceId;
    assert auth.users.Keys == {aliceId} && auth.users[aliceId].email == "alice@example.com";
    assert !AuthModule.EmailTaken(auth.users, "bob@example.com");
    var bob := auth.SignUp("bob@example.com", "pw456", "Bob", bobId, salt);
    assert bob.Success? && bob.value.user.id == bobId;
    assert auth.users[aliceId].email == "alice@example.com";

    // A second sign-up with Alice's email is refused, whatever the password and name.
    var again := auth.SignUp("alice@example.com", "other", "Mallory", spareId, salt);
    assert again == Failure(Conflict(AuthModule.DuplicateEmail));

    var service := new NewsModule.NewsService(map[]);
    var article := service.Create(NewsModule.CreateNewsDto("Title", "Body", None), alice.value.user.id, articleId, now);
    assert article.userId == aliceId;

    var byBob := service.Update(articleId, NewsModule.UpdateNewsDto(Some("Hijacked"), None), bob.value.user.id);
    assert byBob == Failure(NotFound(NewsModule.UpdateDenied));
    var removedByBob := service.Remove(articleId, bob.value.user.id);
    assert removedByBob.Failure? && removedByBob.error.NotFound?;
    assert articleId in service.news;

    var byAlice := service.UpdateAndSave(articleId, NewsModule.UpdateNewsDto(Some("New title"), None), alice.value.user.id);
    assert byAlice.Success? && byAlice.value.title == "New title";
    var removedByAlice := service.Remove(articleId, alice.value.user.id);
    assert removedByAlice.Success? && articleId !in service.news;
  }
}
