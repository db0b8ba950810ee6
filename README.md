# QuizAPI core, modelled in Dafny

This project models the back end of a quiz application. Users register and
log in. Logging in uses a failed-attempt lockout, a JWT access token and a
refresh-token cookie. Authors create quizzes, their questions and the
answer options of those questions. Signed-in users and anonymous guests,
each identified by a guest session id, start attempts and finish them by
submitting their selections. Finishing grades the attempt.

The model covers the request handling of the controllers and the services
and repositories they call:
- every status code and its cause;
- who may see or change what;
- what each write leaves in the database.

## How the model is organised

- **Database.** `Storage.Table<T>` stands for one database table.
  - A table is a class. Its `rows` field holds `Row(id, value)` in insertion order, and `nextId` is the identity counter.
  - `Add`, `Update` and `Remove` stand for EF Core's `Add`/`Update`/`Remove` followed by `SaveChanges`.
  - `Valid()` says ids grow strictly along the rows, so a lookup by id finds at most one row.
- **Queries.** Repository queries are functions over `rows`. A LINQ `Where` is `Storage.Where`, `OrderBy…ThenBy` is `Storage.SortBy`, and `FirstOrDefault` is `Storage.FindById` or `Storage.FindFirst`.
- **Services.** Services are methods that take the tables they read and `modifies` the tables they write.
  - A thrown exception is a `Failure` of `Wrappers.Result`. `KeyNotFound` and `InvalidOperation` name the two typed exceptions; `Failed` is a plain `Exception`.
- **Controllers.** Controllers return `Wrappers.Response`: `Ok(body)` or `Error(status)`.
  - An exception a controller does not catch surfaces as `InternalServerError`. Examples are a failing `int.Parse` of the user-id claim and a null dereference.
- **Authentication.** The authenticated principal is a `ClaimsPrincipal(isAuthenticated, nameIdentifier)`.
  - `HttpContextExtensions.RequiredCallerId` is the controllers' `int.Parse(User.FindFirst(NameIdentifier)?.Value)`.
  - `ClaimUserId` is the services' `int.TryParse` of the same claim.
  - An action marked `[Authorize]` answers 401 to a principal that is not authenticated, before model validation and before its body runs. Each modelled action that carries the attribute tests `isAuthenticated` first.
- **Text length.** A Dafny `string` is a sequence of Unicode scalar values, while .NET's `string.Length` counts UTF-16 code units. `Text.Utf16Length` counts a character above U+FFFF as two, and every length annotation and length test in the model uses it.
- **External inputs.** Clock readings (`now`, in .NET ticks), GUIDs, password hashing (`Entities.Hasher`) and the parsed category name are parameters. A signed JWT is `Jwt(userId)`.

Several controller calls do not match the service and DTO code beside them. In every such case the model follows the controller's own code:
- `QuestionController` calls three-argument `CreateAsync`/`UpdateAsync` overloads of the question service that it does not define. The question endpoints are therefore modelled up to that call: their result is a `QuestionDraft`, the arguments they pass on.
- `QuizController.Create` and `QuizController.Update` read a `Category` property. The create DTO declares `CategoryId` instead, so the category is an argument of the endpoint, and the update DTO carries it.
- `UserController.Update` reads `dto.OldPassword`, which the update DTO does not declare, so it is an argument of the endpoint.
- The question controller's read endpoints set `IsCorrect` on `OptionDto`, which declares only `Id` and `Text`. The model's `QuestionController.OptionDto` carries the flag, as the controller sets it.
- `AttemptDto` declares no `GuestSessionId` and an `int` `UserId`, yet the controllers set both. The model's `AttemptController.AttemptDto` has a guest session and an optional user id, as the controllers fill them.
- `AnswerService` calls `GetByIdAsync`, `UpdateAsync` and `DeleteAsync` on `IAnswerRepository`, which declares only `AddAsync` and `GetAnswersByAttemptAsync`. The `Answer` entity also has `Guid` ids where the service passes an `int`. `AnswerService` is modelled on the `int`-keyed table the service code assumes.
- `QuizService.DeleteAsync` and `QuestionService.DeleteAsync` pass the entity to `IQuizRepository.DeleteAsync` and `IQuestionRepository.DeleteAsync`, which take the entity, but the repository classes implement `DeleteAsync(int id)`. The model removes the row by id.
- `QuizRepository.GetByAccessKeyAsync` upper-cases with `ToUpper()`. `Text.ToUpperInvariant` stands for it and upper-cases the ASCII letters only.

## Model

| member | source | states |
|---|---|---|
| Storage.FindById | Quiz/Repositories/Implementations/AttemptRepository.cs:21-25 | the row found by id is a stored row with that id; none is found exactly when no row has the id (also the `GetByIdAsync` of `QuizRepository.cs:21-25` and `QuestionRepository.cs:21-27`) |
| Storage.FindByIdUnique | Quiz/Repositories/Implementations/QuizRepository.cs:21-25 | with increasing ids, looking up a stored row's id finds that very row |
| Storage.Where | Quiz/Repositories/Implementations/QuizRepository.cs:44-49 | a filtered listing holds exactly the rows that satisfy the predicate and is never longer than the table |
| Storage.SortBy | Quiz/Repositories/Implementations/AttemptRepository.cs:88-95 | ordering yields a permutation of its input that is sorted by the key |
| Storage.Table.Add | Quiz/Repositories/Implementations/AttemptRepository.cs:51-55 | the new row gets the next identity, is appended, and every other lookup is unchanged |
| Storage.Table.Update | Quiz/Repositories/Implementations/AttemptRepository.cs:62-66 | the row with that id gets the new value, every other row and the identity counter are unchanged |
| Storage.Table.Remove | Quiz/Repositories/Implementations/AttemptRepository.cs:73-81 | the row with that id is gone, all others stay; a missing id changes nothing |
| Text.Utf16Length | Quiz/DTOs/Question/QuestionCreateDto.cs:9 | `string.Length`: a string's length in UTF-16 code units lies between its character count and twice it, and equals the character count exactly when no character lies above U+FFFF |
| Text.Utf16LengthConcat | Quiz/DTOs/Question/QuestionCreateDto.cs:9 | the code-unit length of a concatenation is the sum of the parts' lengths |
| Text.TryParseInt32 | Quiz/HttpContextExtensions.cs:20 | a parsed claim is a 32-bit value read from a string of signs, digits and white space |
| Text.ParseInt32 | Quiz/Controllers/UserController.cs:145 | `int.Parse` throws for a null string and succeeds only with a 32-bit value read from signs, digits and white space; it accepts exactly the strings `int.TryParse` accepts, with the same value |
| Text.ParseFormatted | Quiz/TokenGeneration.cs:15 | `int.Parse` reads back every 32-bit value that `ToString` writes |
| Text.FormatThenParse | Quiz/TokenGeneration.cs:15 | the user id written into a token's claim parses back to the same id |
| Text.ToUpperInvariant | Quiz/Repositories/Implementations/QuizRepository.cs:98 | upper-casing keeps the length, maps each character and leaves no lower-case letter |
| Text.UpperIdempotent | Quiz/Repositories/Implementations/QuizRepository.cs:98 | upper-casing twice is upper-casing once |
| HttpContextExtensions.GetGuestSessionId | Quiz/HttpContextExtensions.cs:7-13 | the guest session id is the request item of that name, null without it |
| HttpContextExtensions.GetUserId | Quiz/HttpContextExtensions.cs:15-23 | an unauthenticated request, or one without the claim, has no user id; a user id is a 32-bit value |
| HttpContextExtensions.GetUserIdOfSignedIn | Quiz/HttpContextExtensions.cs:15-23 | a request signed in with a token for user `n` yields user id `n` |
| HttpContextExtensions.ClaimUserId | Quiz/Services/Implementations/AttemptService.cs:48-49 | the services' reading of the claim is null without a claim and otherwise a 32-bit value |
| HttpContextExtensions.ClaimUserIdAgrees | Quiz/Services/Implementations/AttemptService.cs:48-49 | for an authenticated request the services' and the extension's readings agree |
| HttpContextExtensions.OptionalCallerId | Quiz/Controllers/AttemptController.cs:109-114 | an anonymous caller, or one with an empty claim, is nobody; an authenticated caller whose claim parses is that user id; one whose non-empty claim does not parse makes the endpoint throw |
| HttpContextExtensions.RequiredCallerId | Quiz/Controllers/UserController.cs:144-145 | a missing claim throws; a parsed caller id is a 32-bit value, obtained exactly when the services' `TryParse` obtains the same id |
| HttpContextExtensions.RequiredCallerIdOfSignedIn | Quiz/Controllers/UserController.cs:144-145 | a caller whose token was issued for user `n` is read as user `n` |
| HttpContextExtensions.NonNumericClaimRefused | Quiz/Controllers/UserController.cs:144-145 | a claim with a character that is no digit, sign or white space makes both readings throw |
| LoginAttempts.IsLocked | Quiz/Models/LoginAttempt.cs:9 | a record is locked while it counts at least ten failures and the last one lies less than five minutes before now |
| LoginAttempts.FewFailuresNeverLock | Quiz/Models/LoginAttempt.cs:9 | fewer than ten failures never lock |
| LoginAttempts.LockExpires | Quiz/Models/LoginAttempt.cs:9 | five minutes after the last failure a record is unlocked, whatever its count |
| LoginAttempts.FreshIsUnlocked | Quiz/Models/LoginAttempt.cs:5-9 | a default record has no failures and is never locked |
| LoginAttempts.AfterFailure | Quiz/Services/Implementations/UserService.cs:90-107 | a failed login counts one more failure, stamped now, on the existing record or on a new one for the username |
| LoginAttempts.LoginStep | Quiz/Services/Implementations/UserService.cs:82-115 | a locked record refuses before the password is checked; otherwise valid credentials are accepted and reset an existing counter, and invalid ones are rejected and counted |
| LoginAttempts.FailuresCount | Quiz/Services/Implementations/UserService.cs:90-107 | while the total stays at or below the lock threshold of ten, `n` consecutive failures from a record with `k` are all rejected and leave exactly `k + n` failures, stamped at the last one |
| LoginAttempts.TenFailuresLock | Quiz/Services/Implementations/UserService.cs:84-86 | ten failures in a row lock the username for five minutes after the last one, even against the right password |
| LoginAttempts.FailureAfterNineRelocks | Quiz/Services/Implementations/UserService.cs:90-107 | a failure on an unlocked record that already has nine failures or more locks the name for the next five minutes |
| LoginAttempts.ExpiredLockThenSuccessResets | Quiz/Services/Implementations/UserService.cs:109-112 | after the lock expires, a correct login is accepted and resets the counter to zero |
| LoginAttemptRepository.LoginAttemptRepository.constructor | Quiz/Repositories/Implementations/LoginAttemptRepository.cs:11-14 | a new repository holds no records |
| LoginAttemptRepository.LoginAttemptRepository.GetByUsername | Quiz/Repositories/Implementations/LoginAttemptRepository.cs:16-19 | the record of a username is found exactly when one was stored, and it is that username's |
| LoginAttemptRepository.LoginAttemptRepository.AddOrUpdate | Quiz/Repositories/Implementations/LoginAttemptRepository.cs:26-37 | the record is inserted or overwrites the username's record; other usernames are unaffected |
| LoginAttemptRepository.LoginAttemptRepository.ResetAttempts | Quiz/Repositories/Implementations/LoginAttemptRepository.cs:44-53 | an existing record gets zero failures stamped now; a missing one is not created; others are unaffected |
| UserService.FindByUsername | Quiz/Services/Implementations/UserService.cs:36-39 | the user found has exactly that name; none is found exactly when nobody has it |
| UserService.Register | Quiz/Services/Implementations/UserService.cs:56-73 | a taken name yields the empty token and stores nothing; otherwise the user is stored with the hashed password and gets a token for the new id; names stay unique |
| UserService.CredentialsValid | Quiz/Services/Implementations/UserService.cs:88-90 | credentials are valid when a user has that name and the stored hash verifies the password |
| UserService.RegisteredCredentialsValid | Quiz/Services/Implementations/UserService.cs:56-73 | with a hasher that verifies its own hashes, the credentials just registered are valid for login |
| UserService.Login | Quiz/Services/Implementations/UserService.cs:82-115 | the outcome and the counter update are the lockout transition of the stored record; a token is issued only for valid credentials and names the user |
| UserService.Delete | Quiz/Services/Implementations/UserService.cs:122-130 | true exactly for a stored id, which is then removed; false removes nothing |
| UserService.Update | Quiz/Services/Implementations/UserService.cs:137-148 | true exactly for a stored id; only name and password hash change, the creation time is kept |
| RefreshTokenService.Usable | Quiz/Services/Implementations/RefreshTokenService.cs:46 | a stored token still buys an access token when it is not revoked and has not expired; expiring exactly now still counts |
| RefreshTokenService.FindByToken | Quiz/Services/Implementations/RefreshTokenService.cs:42-50 | the record found carries that token; none is found exactly when no record does |
| RefreshTokenService.Refresh | Quiz/Services/Implementations/RefreshTokenService.cs:42-50 | a new access token is issued exactly for a known, unrevoked, unexpired token, and names the token's user |
| RefreshTokenService.CreateRefreshToken | Quiz/Services/Implementations/RefreshTokenService.cs:21-35 | the GUID is stored for the user with a seven-day expiry and returned |
| RefreshTokenService.Logout | Quiz/Services/Implementations/RefreshTokenService.cs:57-60 | the first record of the token is flagged revoked; an unknown token changes nothing |
| RefreshTokenService.IssuedTokenLifetime | Quiz/Services/Implementations/RefreshTokenService.cs:21-35 | a freshly issued token refreshes for its user until exactly seven days later and not after |
| RefreshTokenService.RevokedNeverRefreshes | Quiz/Services/Implementations/RefreshTokenService.cs:57-60 | after logout the token never refreshes again |
| RefreshTokenService.RevokeHitsFirst | Quiz/Services/Implementations/RefreshTokenService.cs:57-60 | revoking updates the very record the refresh lookup finds |
| QuizRepository.Public | Quiz/Repositories/Implementations/QuizRepository.cs:31-37 | exactly the public quizzes, each as often as stored |
| QuizRepository.ByAuthor | Quiz/Repositories/Implementations/QuizRepository.cs:44-49 | exactly the author's quizzes, each as often as stored |
| QuizRepository.GetByAccessKey | Quiz/Repositories/Implementations/QuizRepository.cs:93-99 | the quiz found stores the upper-cased key; none exactly when no quiz does |
| QuizRepository.AccessKeyCaseInsensitive | Quiz/Repositories/Implementations/QuizRepository.cs:98 | looking up a key and its upper-cased form finds the same quiz |
| QuizRepository.ByCategory | Quiz/Repositories/Implementations/QuizRepository.cs:106-122 | exactly the public quizzes of the category, where `Other` also takes quizzes with no category |
| QuizRepository.CategoriesPartitionPublic | Quiz/Repositories/Implementations/QuizRepository.cs:106-122 | a public quiz is listed under its own category, or under `Other` when it has none, and under no other |
| QuestionRepository.ByQuiz | Quiz/Repositories/Implementations/QuestionRepository.cs:47-52 | exactly the quiz's questions, each as often as stored |
| QuestionRepository.OptionsOf | Quiz/Repositories/Implementations/QuestionRepository.cs:34-40 | the options attached to a question are exactly the stored options naming it |
| QuestionRepository.Attach | Quiz/Repositories/Implementations/QuestionRepository.cs:59-66 | each question is paired with exactly its own options, in order |
| QuestionRepository.WithOptionsByQuiz | Quiz/Repositories/Implementations/QuestionRepository.cs:59-66 | the quiz's stored questions, all of them, in ascending id order, each with its options |
| QuestionRepository.HasAnswers | Quiz/Repositories/Implementations/QuestionRepository.cs:106-110 | true exactly when some stored answer refers to the question |
| AttemptRepository.ByUser | Quiz/Repositories/Implementations/AttemptRepository.cs:88-95 | exactly the user's attempts, newest first |
| AttemptRepository.ByQuiz | Quiz/Repositories/Implementations/AttemptRepository.cs:102-110 | exactly the quiz's attempts, in leaderboard order: higher score first, then less time spent |
| AttemptRepository.ByUserAndQuiz | Quiz/Repositories/Implementations/AttemptRepository.cs:118-125 | exactly the user's attempts at the quiz, newest first |
| AttemptRepository.ByGuestAndQuiz | Quiz/Repositories/Implementations/AttemptRepository.cs:133-140 | exactly the guest session's attempts at the quiz, newest first |
| AttemptRepository.UserAndQuizIsBoth | Quiz/Repositories/Implementations/AttemptRepository.cs:118-125 | filtering by user and quiz holds the same attempts as filtering the quiz's listing by user |
| AttemptService.IsCorrect | Quiz/Services/Implementations/AttemptService.cs:87-93 | an entry is correct exactly when its selected ids, as a set, are the question's correct option ids |
| AttemptService.Grade | Quiz/Services/Implementations/AttemptService.cs:77-107 | the finish loop: entries are graded in order, the first unknown question stops it, and each graded entry adds one to the score when correct and its distinct selections to the saved answers |
| AttemptService.Distinct | Quiz/Services/Implementations/AttemptService.cs:85 | the selection set holds each submitted option id exactly once and nothing else |
| AttemptService.QuestionDict | Quiz/Services/Implementations/AttemptService.cs:75 | the dictionary has a key exactly for each question of the listing, mapped to that question |
| AttemptService.EntryAnswers | Quiz/Services/Implementations/AttemptService.cs:98-106 | one answer per distinct selected option, each for this attempt and this question |
| AttemptService.UnknownPersists | Quiz/Services/Implementations/AttemptService.cs:82-83 | once an entry names an unknown question, grading any longer submission fails |
| AttemptService.GradeFailsOnFirstUnknown | Quiz/Services/Implementations/AttemptService.cs:80-107 | grading fails exactly when some entry names a question outside the quiz, and it reports the first such entry |
| AttemptService.ScoreCountsCorrectEntries | Quiz/Services/Implementations/AttemptService.cs:93-95 | the score is the number of entries whose selection equals the correct option set, never more than the entries |
| AttemptService.SavedAnswersAreTheSelections | Quiz/Services/Implementations/AttemptService.cs:98-106 | an answer is saved exactly for each option selected in some entry, under that entry's question |
| AttemptService.RepeatedEntryCountsTwice | Quiz/Services/Implementations/AttemptService.cs:80-95 | an entry submitted twice scores two when it is correct and nothing otherwise |
| AttemptService.NoPartialCredit | Quiz/Services/Implementations/AttemptService.cs:93 | a selection missing a correct option, or adding a wrong one, scores nothing; an empty selection is correct only for a question without correct options |
| AttemptService.GradeEntries | Quiz/Services/Implementations/AttemptService.cs:77-107 | the grading loop computes the recursive grade: the first unknown question, or the score and the answers to save |
| AttemptService.NewAttempt | Quiz/Services/Implementations/AttemptService.cs:48-60 | an attempt is never both a user's and a guest's; the user is the claim's, the guest session is kept only without one; score and time start at zero |
| AttemptService.InProgress | Quiz/Services/Implementations/AttemptService.cs:71 | an attempt is still open while its time spent is zero |
| AttemptService.Closed | Quiz/Services/Implementations/AttemptService.cs:114-116 | a finished attempt records the score, the time since it started and the finishing instant |
| AttemptService.ClosedIsFinal | Quiz/Services/Implementations/AttemptService.cs:71-72 | an attempt finished after a positive time records that time and is no longer in progress, so it cannot be finished again |
| AttemptService.SameTickFinishStaysOpen | Quiz/Services/Implementations/AttemptService.cs:71-72 | an attempt finished in the tick it started still counts as in progress |
| AttemptService.StartAttempt | Quiz/Services/Implementations/AttemptService.cs:43-64 | an unknown quiz throws `KeyNotFound` and stores nothing; otherwise the new attempt is stored and returned |
| AttemptService.FinishAttempt | Quiz/Services/Implementations/AttemptService.cs:66-120 | unknown attempt, finished attempt and unknown question each throw and write nothing; otherwise the selections are saved in order up to the first that names no option; if one does, it throws and the attempt stays open, else the attempt is closed with the computed score |
| AttemptService.SavedPrefix | Quiz/Services/Implementations/AttemptService.cs:110-111 | the database accepts the answers, from the front, up to the first whose chosen option does not exist |
| AttemptService.SaveAll | Quiz/Services/Implementations/AttemptService.cs:110-111 | the answers are appended in order under consecutive new ids up to the first naming no stored option; all are saved exactly when every one names a stored option |
| AttemptService.Delete | Quiz/Services/Implementations/AttemptService.cs:122-126 | always reports true; the attempt is gone if it existed |
| UserAnswerService.AnswersByAttempt | Quiz/Services/Implementations/UserAnswerService.cs:39-42 | exactly the attempt's answers, each as often as stored |
| UserAnswerService.CheckTarget | Quiz/Services/Implementations/UserAnswerService.cs:50-68 | an answer is accepted exactly when its attempt and question exist and the question belongs to the attempt's quiz |
| UserAnswerService.Create | Quiz/Services/Implementations/UserAnswerService.cs:50-68 | a rejected target, or a chosen option that does not exist, throws and stores nothing; otherwise the answer is stored; every stored answer stays consistent with its attempt and question |
| UserAnswerService.Update | Quiz/Services/Implementations/UserAnswerService.cs:75-82 | true exactly for a stored id, whose row then holds the new answer |
| UserAnswerService.Delete | Quiz/Services/Implementations/UserAnswerService.cs:89-96 | true exactly for a stored id, which is then removed |
| AnswerService.AnswersByAttempt | Quiz/Services/Implementations/AnswerService.cs:28-31 | exactly the attempt's text answers, each as often as stored |
| AnswerService.Create | Quiz/Services/Implementations/AnswerService.cs:33-51 | a missing attempt or question, or a question of another quiz, throws and stores nothing; otherwise the answer is stored |
| AnswerService.Update | Quiz/Services/Implementations/AnswerService.cs:53-60 | true exactly for a stored id, whose row then holds the new answer |
| AnswerService.Delete | Quiz/Services/Implementations/AnswerService.cs:62-69 | true exactly for a stored id, which is then removed |
| OptionService.Create | Quiz/Services/Implementations/OptionService.cs:44-52 | an option of an unknown question throws and stores nothing; every stored option keeps belonging to a stored question |
| OptionService.Edited | Quiz/Services/Implementations/OptionService.cs:70-86 | an edit takes the new text and flag and keeps the option's question |
| OptionService.Update | Quiz/Services/Implementations/OptionService.cs:70-86 | false exactly for an unknown id; moving an option to another question throws and writes nothing; otherwise only text and flag change |
| OptionService.Delete | Quiz/Services/Implementations/OptionService.cs:93-101 | true exactly for a stored id, which is then removed |
| QuestionService.WithLists | Quiz/Services/Implementations/QuestionService.cs:28-41 | a stored question always has both option lists, empty where none was given |
| QuestionService.Create | Quiz/Services/Implementations/QuestionService.cs:28-41 | a question of an unknown quiz throws and stores nothing; otherwise it is stored with both lists present |
| QuestionService.Edited | Quiz/Services/Implementations/QuestionService.cs:43-56 | an edit keeps the question's quiz and takes text, type and lists from the update |
| QuestionService.Update | Quiz/Services/Implementations/QuestionService.cs:43-56 | false exactly for an unknown id; otherwise the edited question replaces it and lists stay present |
| QuestionService.Delete | Quiz/Services/Implementations/QuestionService.cs:58-66 | true exactly for a stored id, which is then removed |
| QuizService.Create | Quiz/Services/Implementations/QuizService.cs:32-42 | an unknown author throws and stores nothing; otherwise the quiz is stored stamped with the service's clock; every quiz keeps an existing author |
| QuizService.Edited | Quiz/Services/Implementations/QuizService.cs:44-59 | an edit copies title, description, category, language, visibility and time limit and keeps author, creation time, deletion flag and key |
| QuizService.Update | Quiz/Services/Implementations/QuizService.cs:44-59 | false exactly for an unknown id; otherwise the edited quiz replaces it and authors are kept |
| QuizService.Delete | Quiz/Services/Implementations/QuizService.cs:61-69 | true exactly for a stored id, which is then physically removed |
| CategoryService.Create | Quiz/Services/Implementations/CategoryService.cs:26-30 | the category is stored under the next id and returned |
| CategoryService.Update | Quiz/Services/Implementations/CategoryService.cs:32-42 | false exactly for an unknown id; otherwise only the name changes and the quiz list is kept |
| CategoryService.Delete | Quiz/Services/Implementations/CategoryService.cs:44-54 | false for an unknown id; a category that still has quizzes throws and is never removed; otherwise it is removed |
| Dtos.QuestionCreateBounds | Quiz/DTOs/Question/QuestionCreateDto.cs:8-25 | an accepted question has 5 to 500 UTF-16 code units of text (so at least 3 characters), a positive quiz id and 2 to 10 options, each with text of 1 to 500 code units; a missing or empty option list is refused |
| Dtos.QuestionCreateSmallestAccepted | Quiz/DTOs/Question/QuestionCreateDto.cs:8-18 | five code units of text and two options pass; four code units, quiz id 0 or a single option fail |
| Dtos.QuizCreateBounds | Quiz/DTOs/Quiz/QuizCreateDto.cs:6-18 | an accepted quiz has a title of 3 to 50 code units (at least 2 characters), a description of at most 5000 code units and a positive category id when given; the time limit and the description never decide validity; two emoji make a valid title where two letters do not |
| Dtos.AuthBounds | Quiz/DTOs/User/AuthDto.cs:7-12 | empty credentials fail; accepted ones have a name of 3 to 50 code units and a password of at least 6 code units; lengthening an accepted password keeps the credentials acceptable |
| Dtos.UserUpdateBounds | Quiz/DTOs/User/UserUpdateDto.cs:7-11 | an empty update passes; a given name has 3 to 50 code units and a given password at least 6; a five-character password fails |
| Dtos.CategoryNameBounds | Quiz/DTOs/Category/CreateCategoryDto.cs:7-9 | a name passes exactly when present, not blank and 2 to 50 code units long |
| Dtos.OptionRequestValid | Quiz/DTOs/Question/QuestionCreateDto.cs:23-25 | an option passes when its text is present, not blank and 1 to 500 code units long |
| Dtos.QuestionCreateValid | Quiz/DTOs/Question/QuestionCreateDto.cs:8-18 | the create rules: required text of 5 to 500 code units, quiz id in 1..`int.MaxValue`, 2 to 10 options that each pass the option rules |
| Dtos.QuestionUpdateValid | Quiz/DTOs/Question/QuestionCreateDto.cs:29-34 | an update body passes when each option of a given list passes the option rules; its text and type carry no rule |
| Dtos.QuizCreateValid | Quiz/DTOs/Quiz/QuizCreateDto.cs:6-18 | the create rules: required title of 3 to 50 code units, description of at most 5000, positive category id when given |
| Dtos.AuthValid | Quiz/DTOs/User/AuthDto.cs:7-12 | both fields required; name of 3 to 50 code units, password of at least 6 |
| Dtos.UserUpdateValid | Quiz/DTOs/User/UserUpdateDto.cs:7-11 | both fields optional; a given name has 3 to 50 code units, a given password at least 6 |
| Dtos.CreateCategoryValid | Quiz/DTOs/Category/CreateCategoryDto.cs:7-9 | the name is required and 2 to 50 code units long |
| AttemptController.MapToAttemptDto | Quiz/Controllers/AttemptController.cs:25-37 | the DTO copies the attempt, and shows a guest session id only for an attempt without a user |
| AttemptController.StartResponse | Quiz/Controllers/AttemptController.cs:41-55 | every failure to start is a 400; a started attempt is returned as its DTO |
| AttemptController.FinishResponse | Quiz/Controllers/AttemptController.cs:59-81 | not found is 404, an invalid operation is 409, any other failure is 400 |
| AttemptController.StartAttemptEndpoint | Quiz/Controllers/AttemptController.cs:41-55 | an unknown quiz is a 400 with nothing stored; otherwise the new attempt is appended under the next id and returned as its DTO |
| AttemptController.FinishAttemptEndpoint | Quiz/Controllers/AttemptController.cs:59-81 | an invalid body is 400; unknown attempt 404; finished attempt or unknown question 409, with nothing written; a selection naming no option is 400 after the earlier selections were saved, with the attempt left open; otherwise every selection is saved and the attempt is closed with its grade |
| AttemptController.GetById | Quiz/Controllers/AttemptController.cs:85-92 | 404 exactly for an unknown id; otherwise the stored attempt's DTO |
| AttemptController.MayViewAnswers | Quiz/Controllers/AttemptController.cs:116-122 | the answers may be read by the quiz's author, the attempt's user, or the caller presenting the attempt's non-empty guest session id |
| AttemptController.GetAnswers | Quiz/Controllers/AttemptController.cs:96-140 | 404 for an unknown attempt or quiz; 500 exactly when the claim does not parse; the answers exactly when the caller is the quiz's author, the attempt's user or its guest session; 403 otherwise |
| AttemptController.AnonymousWithoutSessionRefused | Quiz/Controllers/AttemptController.cs:96-140 | an anonymous caller without a guest session is always refused an existing attempt's answers |
| AttemptController.AuthorMayView | Quiz/Controllers/AttemptController.cs:96-140 | the quiz's author, signed in, always receives the attempt's answers |
| AttemptController.StarterMayView | Quiz/Controllers/AttemptController.cs:96-140 | whoever started an attempt, user or guest, may view its answers later |
| QuizController.ToDto | Quiz/Controllers/QuizController.cs:42-53 | the DTO copies the quiz, with `Other` for a missing category and only the key it is given |
| QuizController.GetAllPublic | Quiz/Controllers/QuizController.cs:35-56 | the DTOs of exactly the public quizzes, in table order, all public and none carrying a key |
| QuizController.GetById | Quiz/Controllers/QuizController.cs:60-100 | 404 for an unknown quiz; a public quiz goes to anyone without its key; a private one goes only to its author, with its key, and is 403 for others |
| QuizController.KeyOnlyToAuthor | Quiz/Controllers/QuizController.cs:60-100 | whenever the response carries a key, the quiz is private and the caller is its author |
| QuizController.AnonymousRefusedPrivate | Quiz/Controllers/QuizController.cs:60-100 | an anonymous caller always gets 403 for a private quiz |
| QuizController.GetByAccessKeyEndpoint | Quiz/Controllers/QuizController.cs:105-130 | an empty key is 400, an unmatched one 404; a key matching a stored quiz, in any letter case, returns that quiz with its key |
| QuizController.ClaimsAuthorship | Quiz/Controllers/QuizController.cs:145-147 | the caller is the quiz's author when the `int.TryParse` of their claim yields the author's id |
| QuizController.KeyOpens | Quiz/Controllers/QuizController.cs:148 | a supplied key opens a quiz that has a key equal to the supplied one upper-cased |
| QuizController.GetQuestions | Quiz/Controllers/QuizController.cs:134-176 | 404 for an unknown quiz; 403 exactly for a private quiz whose caller is neither its author nor holds its key; otherwise the quiz's questions |
| QuizController.QuestionKeyCaseInsensitive | Quiz/Controllers/QuizController.cs:134-176 | a key opens a quiz exactly when its upper-cased form does |
| QuizController.Scope | Quiz/Controllers/QuizController.cs:181-235 | the author sees all attempts, another user only their own, a caller with no user id only their guest session's, anyone else nothing |
| QuizController.MapAll | Quiz/Controllers/QuizController.cs:181-235 | each listed attempt becomes its DTO, in order |
| QuizController.GetAttempts | Quiz/Controllers/QuizController.cs:181-235 | 404 for an unknown quiz, 500 exactly for an unparsable claim, 403 exactly when the caller has no scope, otherwise the scope's listing |
| QuizController.ListedBelongs | Quiz/Controllers/QuizController.cs:181-235 | every listed attempt is of the quiz and, for a non-author, of the caller's user or guest session |
| QuizController.NonAuthorSeesOnlyOwn | Quiz/Controllers/QuizController.cs:181-235 | a caller who is not the author never sees another user's attempts |
| QuizController.ConnectByCode | Quiz/Controllers/QuizController.cs:239-262 | a code that is empty or not five UTF-16 code units long is 400; an unknown code 404; a public quiz's code 400; a private quiz's code returns its id, title, description, time limit and key |
| QuizController.CodeLengthInCodeUnits | Quiz/Controllers/QuizController.cs:241 | a four-character code holding one character above U+FFFF is five code units long, so it passes the length test and is 404 when no quiz has it |
| QuizController.Merge | Quiz/Controllers/QuizController.cs:315-340 | each field given in the update replaces the stored one; the rest, author and key included, are kept |
| QuizController.EmptyMergeIsIdentity | Quiz/Controllers/QuizController.cs:315-340 | an update with no fields leaves the quiz as it was |
| QuizController.ServiceKeepsMerge | Quiz/Controllers/QuizController.cs:315-340 | the service stores exactly the merge the controller computed |
| QuizController.UpdateEndpoint | Quiz/Controllers/QuizController.cs:315-340 | 401 for a caller that is not authenticated, before anything else; then 404, 400 for a deleted quiz, 500 for an unparsable claim, 403 for a non-author; the author's update stores the merge |
| QuizController.DeleteEndpoint | Quiz/Controllers/QuizController.cs:376-390 | 401 for a caller that is not authenticated, before anything else; then 404, 500 for an unparsable claim, 403 for a non-author; only the author removes the quiz |
| QuizController.CreateEndpoint | Quiz/Controllers/QuizController.cs:267-310 | 401 for a caller that is not authenticated, before anything else; then 400 for an invalid body, 401 without a claim, 500 for an unparsable one, 400 for an unknown author; otherwise the quiz is stored public or private as asked, authored by the caller, stamped by the service, with a title of 3 to 50 code units and no language |
| QuizController.GetByCategoryEndpoint | Quiz/Controllers/QuizController.cs:343-371 | an unparsable category is 400; 404 exactly when the category has no public quiz; otherwise the DTOs of exactly its public quizzes, in table order, with their stored keys |
| QuestionController.AuthorCheck | Quiz/Controllers/QuestionController.cs:68-71 | the write passes exactly when the claim parses to the author's id; an unparsable claim is 500, another user 403 |
| QuestionController.QuizAuthor | Quiz/Controllers/QuestionController.cs:106 | the author of a question's quiz, missing exactly when that quiz is |
| QuestionController.Split | Quiz/Controllers/QuestionController.cs:82-83 | the option texts and flags are two lists as long as the options, position by position |
| QuestionController.Zip | Quiz/Controllers/QuestionController.cs:82-83 | pairing two lists of equal length gives one option per position |
| QuestionController.SplitThenZip | Quiz/Controllers/QuestionController.cs:82-83 | splitting the options into two lists loses nothing |
| QuestionController.CreateQuestion | Quiz/Controllers/QuestionController.cs:59-93 | 401 for a caller that is not authenticated, before anything else; then 400 for an invalid body, 500 for an unknown quiz, 400 for a deleted one, then 500 or 403 from the author check; the author always gets through, and the service receives the body's question and all its options |
| QuestionController.CreatedQuestionBounds | Quiz/Controllers/QuestionController.cs:59-93 | what an accepted create passes on has text of 5 to 500 code units and 2 to 10 options with matching flags, each option's text present and 1 to 500 code units long |
| QuestionController.MergeQuestion | Quiz/Controllers/QuestionController.cs:109-110 | given text and type replace the stored ones; quiz and lists are kept |
| QuestionController.UpdateQuestion | Quiz/Controllers/QuestionController.cs:98-130 | 401 for a caller that is not authenticated, before anything else; then 400 when a given option fails the option rules; then 404 exactly for an unknown question, 500 for a missing quiz, 500 or 403 from the author check; the author always gets through, and the service receives the merge, with lists exactly when the body has options |
| QuestionController.DeleteQuestion | Quiz/Controllers/QuestionController.cs:135-155 | 401 for a caller that is not authenticated, before anything else; then 404 exactly for an unknown question; an unparsable claim or a missing quiz is 409; 403 for anyone but the author; the author's request removes the question and a refused one writes nothing |
| QuestionController.GetQuestionById | Quiz/Controllers/QuestionController.cs:47-54 | 404 exactly for an unknown id; otherwise the stored question |
| QuestionController.GetOptionById | Quiz/Controllers/QuestionController.cs:159-173 | 404 exactly for an unknown id; otherwise the option with its correctness flag, to any caller |
| QuestionController.GetOptionsByQuestion | Quiz/Controllers/QuestionController.cs:177-191 | exactly the question's options, by increasing id in a table whose ids increase, and an empty list rather than 404 for an unknown question |
| QuestionController.CreateOption | Quiz/Controllers/QuestionController.cs:196-221 | 401 for a caller that is not authenticated, before anything else; then 404 exactly for an unknown question, 500 for a missing quiz, 500 or 403 from the author check; the author always gets through, and the option is then stored under the route's question |
| QuestionController.OptionGate | Quiz/Controllers/QuestionController.cs:226-236 | 401 exactly for a caller that is not authenticated; then 404 exactly for an unknown option, 500 for a missing question or quiz and for an unparsable claim, 403 for anyone but the author; the write passes exactly when the option's quiz exists and the claim parses to its author |
| QuestionController.MergeOption | Quiz/Controllers/QuestionController.cs:238-239 | given text and flag replace the stored ones; the question is kept |
| QuestionController.UpdateOption | Quiz/Controllers/QuestionController.cs:226-247 | the status is the gate's (401, 404, 500 or 403) and a refused request writes nothing; a permitted one stores the merged option |
| QuestionController.DeleteOption | Quiz/Controllers/QuestionController.cs:252-269 | the status is the gate's (401, 404, 500 or 403) and a refused request writes nothing; a permitted one removes the option |
| UserController.GetAllUsers | Quiz/Controllers/UserController.cs:35-50 | every user, in order, by id and name only |
| UserController.GetById | Quiz/Controllers/UserController.cs:54-68 | 404 exactly for an unknown id; otherwise the user's id and name |
| UserController.GetByUsername | Quiz/Controllers/UserController.cs:72-85 | 404 exactly when nobody has the name; otherwise a user of that name |
| UserController.GetQuizzes | Quiz/Controllers/UserController.cs:89-111 | every quiz of the author and nothing else, one entry per stored quiz in table order, private ones included and each with its key, to any caller |
| UserController.GetAttempts | Quiz/Controllers/UserController.cs:115-133 | every attempt of the user and nothing else, one entry per stored attempt, newest first, with no guest session shown |
| UserController.OwnQuizzesMapped | Quiz/Controllers/UserController.cs:89-111 | each listed quiz is a stored quiz of the author, and each stored quiz of the author is listed |
| UserController.OwnAttemptsMapped | Quiz/Controllers/UserController.cs:115-133 | the mapped listing holds exactly the user's attempts |
| UserController.Updated | Quiz/Controllers/UserController.cs:160-185 | a new password is stored hashed when one is given; a new name when it is given and differs; the creation time is kept |
| UserController.UpdateGate | Quiz/Controllers/UserController.cs:138-185 | the update passes exactly for a valid body, a known user, the user themself, the right current password for a password change and a free name for a rename; 500 for an unparsable claim, 403 for another user, 400 for a blank current password, 401 exactly for a wrong one, 409 exactly for a taken name |
| UserController.RenameKeepsUnique | Quiz/Controllers/UserController.cs:178-185 | renaming to an unchanged or free name keeps usernames unique |
| UserController.UpdateEndpoint | Quiz/Controllers/UserController.cs:138-195 | 401 for a caller that is not authenticated; otherwise the gate's status; a refused update writes nothing; a permitted one stores the updated user; usernames stay unique |
| UserController.DeleteEndpoint | Quiz/Controllers/UserController.cs:200-219 | 401 for a caller that is not authenticated, before anything else; then 404 exactly for an unknown id, 500 for an unparsable claim, 403 for another user; only the user themself removes their account |
| UserController.RegisterEndpoint | Quiz/Controllers/UserController.cs:223-241 | 400 for an invalid body, 409 exactly for a taken name, otherwise the new user's token; usernames stay unique, and the stored name has 3 to 50 code units |
| UserController.LoginEndpoint | Quiz/Controllers/UserController.cs:245-271 | 400 for an invalid body, with no counter changed; a locked name is 500, wrong credentials 401; a login succeeds exactly when accepted, and then stores a refresh token for the user; the name's failure counter moves as the lockout rule says |
| UserController.RefreshEndpoint | Quiz/Controllers/UserController.cs:275-287 | 401 without the cookie or for a token that does not refresh; otherwise an access token for the token's user |
| UserController.LogoutEndpoint | Quiz/Controllers/UserController.cs:291-301 | the cookie's token is revoked and never refreshes again; without a cookie nothing changes |

## Left out

- **Infrastructure.** Not modelled:
  - the database engine, its transactions and concurrent requests;
  - foreign-key restrict or cascade behaviour on deletes. A delete that the database would refuse or cascade is modelled as removing only the row itself, and `QuestionController.Delete`'s 409 for such a refusal is left out. On inserts, only the `ChosenOptionId` key of a user answer is modelled (`UserAnswerService.KnownOption`); the other keys of an insert are checked by the services before they write.
  - the identity value a refused insert consumes: the table's counter moves only on a stored row.
- **External parts.** Not modelled: JWT signing, cookie options, ASP.NET routing, model binding, and the `PasswordHasher` algorithm. Hashing is the `Hasher` parameter.
- **Time.** Clock readings are integer ticks passed in. `AttemptService.FinishAttempt` reads the clock twice, once for the time spent and once for the completion instant. `LoginAttemptRepository.ResetAttempts` takes its own reading for `LastAttempt`; the model reuses the login's `now`, which cannot change a lock decision because the count is zero.
- **Enumerations.** `CategoryType`'s member names are not part of this model. `Enum.TryParse` of a category name is the `parsed` parameter of `QuizController.GetByCategoryEndpoint`.
- **Option lists of a question.** `QuestionController.GetById` and `QuizController.GetQuestions` map each question's `Options`. Neither repository query they use includes the options, so what the list holds depends on what EF already tracks and on the `Question` entity's initialiser. That class is not part of this model, so both responses leave the options out.
- **Overloads that are not defined.** `QuestionController.CreateQuestion` and `QuestionController.UpdateQuestion` stop at the arguments of the three-argument service overloads, which are not part of this model. The lists the overloads would store, and the 400 on their exceptions, are left out.
- **Look-ups the services do not define.** `CategoryService` has no duplicate-name check. The quiz controller's key and category look-ups go straight to the repository, because the service methods they name are not part of this model.
- **Listing order.** A listing without an ORDER BY is modelled in table order. For the ordered listings, the relative order of equal keys is not claimed.
- **Text handling.**
  - Text.ToUpperInvariant: upper-cases the ASCII letters only. Culture-specific and non-ASCII case mappings of `ToUpper()` are not modelled.
  - Text.TryParseInt32: accepts leading and trailing ASCII white space and one sign. The trailing NUL characters and culture-specific signs that .NET also accepts are not modelled.
- **Counters.** The Int32 wrap-around of a login-attempt counter past 2^31 - 1 failures is not modelled.
- **State before a throw.** The entity `OptionService.Update` tracks is changed before it throws. The model writes nothing in that case, as no save follows.
- AttemptService.Delete: reports success without checking that the attempt existed, as the source does. The repository's delete of a missing id is modelled as removing nothing.
