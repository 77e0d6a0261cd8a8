# StudyShare core, modelled in Dafny

StudyShare is a study-material sharing site. Students register, log in, upload documents
(PDF, Word, PowerPoint) tagged with a subject, department and semester, search them, upvote and
comment on them, and reset a forgotten password with a six-digit code sent by mail. This
project models the core of the Express/Mongoose back end and of the React front end.

Back end:
- the auth, user, resource and search controllers;
- the user, resource and password-reset schemas;
- the express-validator rule chains;
- the multer-S3 upload middleware.

Front end:
- the upload and search hooks;
- the resources page with its URL state, its filters and its pager;
- the resource card, preview panel and uploads list;
- the reset-password form.

Everything is pure Dafny. A request is a function from the store and the request to a reply
and the new store. A React component is a function from its props and state to what it shows.
The store, the clock, random draws, uuids, the mailer and the password comparison that the
login evidently intends are parameters.

Modules, each one file:

| module | file | models |
|---|---|---|
| `Wrappers` | wrappers.dfy | `Option` |
| `Strings` | strings.dfy | JavaScript's `trim`, `split`, `includes`, `toLowerCase`, `toUpperCase`, `split(...).pop()` |
| `Numbers` | numbers.dfy | `toString`, `Number`, `parseInt`, the `NaN` value, express-validator's `isNumeric` and `isInt` |
| `Collections` | collections.dfy | `findIndex`, `splice`, `filter`, sorting, `slice`/`skip`/`limit` windows, `new Set` deduplication |
| `ResourceModel` | resource_model.dfy | the resource document, its comments and defaults |
| `UserModel` | user_model.dfy | the user document, roles, `findOne`/`findById` |
| `PasswordResets` | password_reset.dfy | reset-code entries, the TTL sweep, the reset query |
| `Replies` | replies.dfy | HTTP replies |
| `BodyFields` | body_fields.dfy | request-body fields, JavaScript truthiness, Mongoose's number cast |
| `AuthController` | auth_controller.dfy | register, login, forgot password, reset password |
| `UserController` | user_controller.dfy | get and update the current user |
| `ResourceController` | resource_controller.dfy | create, list, get, upvote, comment, update, delete |
| `Search` | search.dfy | the search handler: query, sort, paging, totals |
| `Validation` | validation.dfy | the register, login, resource and user rule chains and their sanitizers |
| `Uploader` | uploader.dfy | the file filter, `path.extname`, the object key, the size limit |
| `UploadClient` | upload_client.dfy | the client's `validateFile` and `uploadResource` |
| `SearchState` | search_state.dfy | URL parameters, `useResources`, the filter selects, the pager, the list's view |
| `Display` | display.dfy | the card's badge, icon and upvote button, the preview panel, the uploads list |
| `ResetForm` | reset_form.dfy | the reset form's Zod schema and the routing of server errors |

## Model

In the source column, `Backend/...` and `Frontend/...` are paths in the repository.

| member | source | states |
|---|---|---|
| Strings.TrimStart | Backend/src/controllers/resource.controller.ts:22 | The result is a suffix of the input that does not start with whitespace, and everything cut off is whitespace |
| Strings.TrimEnd | Backend/src/controllers/resource.controller.ts:22 | The result is a prefix of the input that does not end with whitespace, and everything cut off is whitespace |
| Strings.TrimSpec | Backend/src/controllers/resource.controller.ts:22 | `trim()` yields a trimmed infix that starts right after the leading whitespace, and every character cut from either end is whitespace |
| Strings.TrimIdempotent | Backend/src/controllers/resource.controller.ts:22 | Trimming twice is trimming once |
| Strings.TrimOfTrimmed | Backend/src/controllers/resource.controller.ts:22 | A string without surrounding whitespace is its own trim |
| Strings.TrimKeepsOut | Backend/src/controllers/resource.controller.ts:22 | Trimming adds no character, so a trimmed piece of comma-free text holds no comma |
| Strings.Split | Backend/src/controllers/resource.controller.ts:22 | `split` on one character keeps empty pieces, and no piece contains the separator |
| Strings.JoinSplit | Backend/src/controllers/resource.controller.ts:22 | Joining the pieces of a split with the separator gives back the original string |
| Strings.SplitJoin | Backend/src/controllers/resource.controller.ts:22 | Splitting a join of separator-free pieces gives back the pieces |
| Strings.SplitNoSep | Backend/src/controllers/resource.controller.ts:22 | A string without the separator splits into itself alone |
| Strings.SplitFirst | Backend/src/controllers/resource.controller.ts:22 | The text before the first separator is the first piece, and the rest splits on its own |
| Strings.SplitTrimmed | Backend/src/controllers/resource.controller.ts:22 | Comma parsing gives one item per split piece |
| Strings.SplitTrimmedSpec | Backend/src/controllers/resource.controller.ts:22 | Every parsed item is trimmed and separator-free, and it is the trim of the piece at its position |
| Strings.SplitTrimmedJoin | Backend/src/controllers/resource.controller.ts:22 | Parsing, then joining with the separator, reproduces input that has no blanks around its pieces |
| Strings.JoinSplitTrimmed | Backend/src/controllers/resource.controller.ts:22 | Parsing a join of trimmed, separator-free items gives back the items |
| Strings.LastPieceSpec | Frontend/src/components/resources/ResourceCard.tsx:47 | `split(sep).pop()` is the longest separator-free suffix: either the whole string or the text after a separator |
| Strings.LastPieceNoSep | Frontend/src/components/resources/PDFPreview.tsx:32 | A string without the separator is its own last piece |
| Strings.LastPieceAfterLast | Frontend/src/components/resources/ResourceCard.tsx:47 | The last piece of `x + sep + e`, where `e` holds no separator, is `e` |
| Strings.LastSepPosition | Backend/src/middlewares/s3Uploader.ts:35 | In a string holding the separator, the last piece follows the last separator, which opens the string exactly when no separator follows the first character |
| Strings.ContainsIff | Frontend/src/components/resources/ResourceCard.tsx:12-30 | `includes` holds exactly when the pattern occurs at some position |
| Strings.ContainsSelf | Frontend/src/components/resources/PDFPreview.tsx:23 | Every string includes itself |
| Strings.ContainsShorter | Frontend/src/components/resources/PDFPreview.tsx:23 | A string shorter than the pattern does not include it |
| Strings.Lower | Frontend/src/components/resources/ResourceCard.tsx:47 | Lower-casing keeps the length and every letter position by position up to case, leaves no upper-case letter, and changes a string exactly when it holds an upper-case letter |
| Strings.Upper | Frontend/src/components/resources/ResourceCard.tsx:48 | Upper-casing keeps the length and every letter position by position up to case, leaves no lower-case letter, and changes a string exactly when it holds a lower-case letter |
| Strings.UpperLower | Frontend/src/components/resources/ResourceCard.tsx:47-48 | Under ASCII case mapping, `toLowerCase()` followed by `toUpperCase()` equals `toUpperCase()` alone |
| Strings.LowerUpper | Frontend/src/components/resources/ResourceCard.tsx:47-48 | Under ASCII case mapping, `toUpperCase()` followed by `toLowerCase()` equals `toLowerCase()` alone |
| Strings.LowerIdempotent | Frontend/src/components/resources/ResourceCard.tsx:47 | Lower-casing twice is lower-casing once |
| Strings.Utf16Length | Frontend/src/pages/auth/ResetPassword.tsx:18-22 | JavaScript's `length` counts UTF-16 code units: between the character count and twice it, and equal to it exactly when every character lies in the Basic Multilingual Plane |
| Strings.Utf16LengthConcat | Frontend/src/pages/auth/ResetPassword.tsx:18-22 | The code-unit length of a concatenation is the sum of the parts' lengths |
| Strings.AstralCountsTwice | Frontend/src/pages/auth/ResetPassword.tsx:22 | "abcd😀" has five characters but a `length` of 6 |
| Numbers.NatToDecimal | Frontend/src/hooks/useUpload.tsx:73 | `toString()` of a non-negative number is non-empty, all digits, and has no leading zero |
| Numbers.DecimalRoundTrip | Frontend/src/hooks/useUpload.tsx:73 | The digits `toString()` writes read back as the number |
| Numbers.DecimalLength | Backend/src/controllers/auth.controller.ts:136 | A number with `k` decimal digits prints as `k` characters |
| Numbers.IntToDecimal | Frontend/src/pages/resources/ResourcesPage.tsx:63 | `toString()` of an integer is never empty; `Numbers.DecimalParts` states its shape |
| Numbers.DecimalParts | Frontend/src/pages/resources/ResourcesPage.tsx:63 | `toString()` of an integer is its sign followed by the magnitude's digits, with no blank at either end |
| Numbers.NumberOf | Frontend/src/pages/resources/ResourcesPage.tsx:26-30 | `Number(s)` of blank text is 0; `Numbers.SignedDigitsNumber` and `Numbers.NumberOfRoundTrip` state what it reads from numerals |
| Numbers.DigitPrefix | Backend/src/controllers/search.controller.ts:59-60 | The longest all-digit prefix: every character in it is a digit, and the next one is not |
| Numbers.NumberOfRoundTrip | Frontend/src/pages/resources/ResourcesPage.tsx:30-63 | `Number(i.toString())` is `i` for every integer |
| Numbers.LetterReadsNaN | Backend/src/controllers/search.controller.ts:45 | `Number` of text that opens with a letter is NaN |
| Numbers.ParseIntRoundTrip | Backend/src/controllers/search.controller.ts:59-60 | `parseInt(i.toString(), 10)` is `i` for every integer |
| Numbers.IntIsNumeric | Backend/src/middlewares/user.validation.ts:12-15 | Every string `isInt` accepts is also accepted by `isNumeric`, and `parseInt` reads the value `isInt` checked |
| Numbers.SignedDigitsNumber | Backend/src/controllers/search.controller.ts:45 | An optionally signed run of digits has no surrounding blanks, and `Number` reads it as its value |
| Collections.IndexOf | Backend/src/controllers/resource.controller.ts:114-116 | `findIndex` gives -1 exactly when the value is absent, and otherwise the first position holding it |
| Collections.FindFirst | Backend/src/controllers/resource.controller.ts:104 | A lookup by key (`findById`, `findOne({email})`) gives -1 exactly when no element has the key, and otherwise the first element that does |
| Collections.RemoveAt | Backend/src/controllers/resource.controller.ts:128 | `splice(k, 1)` drops exactly position `k`: the elements before and after keep their order, and one occurrence of that element leaves the multiset |
| Collections.Filter | Backend/src/controllers/search.controller.ts:81 | The result holds exactly the elements satisfying the predicate, each as many times as in the input |
| Collections.FilterKeepsKeysDistinct | Backend/src/controllers/auth.controller.ts:143 | Removing entries keeps distinct keys distinct |
| Collections.Insert | Backend/src/controllers/search.controller.ts:85-86 | Inserting into a list sorted largest first keeps it sorted, and the multiset gains exactly the new element |
| Collections.SortDesc | Backend/src/controllers/search.controller.ts:85-86 | The sort returns a permutation of its input, ordered largest key first |
| Collections.PermutationMembers | Backend/src/controllers/search.controller.ts:85-86 | A sorted list has the same length and the same members as the input |
| Collections.Window | Backend/src/controllers/search.controller.ts:87-94 | `slice(skip, skip + n)` or `skip(skip).limit(n)`: at most `n` elements, and element `i` is input element `skip + i`; empty once `skip` passes the end |
| Collections.Upto | Backend/src/controllers/search.controller.ts:94 | The prefix holds `m` elements, or all of them when there are fewer |
| Collections.UptoWindow | Backend/src/controllers/search.controller.ts:87 | The window at `start` continues the prefix that ends at `start` |
| Collections.PagedPrefix | Backend/src/controllers/search.controller.ts:61-87 | The first `k` pages concatenated are the first `k * size` elements |
| Collections.PagedCovers | Backend/src/controllers/search.controller.ts:61-106 | Enough pages to cover the list reproduce the list |
| Collections.WindowSorted | Backend/src/controllers/search.controller.ts:85-87 | A window of a sorted list is sorted |
| Collections.DedupeFrom | Frontend/src/pages/resources/ResourcesPage.tsx:81 | The result has no duplicates, starts with the values already collected, holds exactly the collected values and the input's, and lists the new values in the order of their first appearance in the input |
| Collections.Dedupe | Frontend/src/pages/resources/ResourcesPage.tsx:81-83 | `Array.from(new Set(s))` has no duplicates, has exactly the members of `s`, and lists them in the order of their first appearance in `s` |
| Collections.FirstPosIsIndexOf | Frontend/src/pages/resources/ResourcesPage.tsx:81 | The first-appearance position used for that order is `indexOf` for every value the input holds |
| Collections.DedupeKeepsFirstOrder | Frontend/src/pages/resources/ResourcesPage.tsx:81 | Along `Array.from(new Set(s))`, `s.indexOf` of the listed values strictly grows |
| Collections.SortKeepsNoDup | Frontend/src/pages/resources/ResourcesPage.tsx:82 | Sorting a duplicate-free list keeps it duplicate-free |
| Collections.CountTwoMeansDup | Backend/src/controllers/resource.controller.ts:114-128 | A value occurring twice means the list has a duplicate |
| ResourceModel.NewResource | Backend/src/models/resource.model.ts:84-95 | A freshly saved document is consistent: its counter equals the number of its distinct upvoters |
| ResourceModel.SortedOn | Backend/src/controllers/search.controller.ts:90-94 | The store's sort returns a permutation of the matches, ordered largest key first |
| ResourceModel.WindowSortedBy | Backend/src/controllers/search.controller.ts:92-94 | A window of the sorted documents stays sorted |
| UserModel.ParseRole | Backend/src/models/user.model.ts:31-35 | The role enumeration admits exactly 'student' and 'admin' |
| UserModel.RoleRoundTrip | Backend/src/models/user.model.ts:31-35 | Naming a role and reading it back gives the role |
| UserModel.FindByEmailUnique | Backend/src/models/user.model.ts:22-26 | With unique emails, the user found by an email is the only one holding it |
| PasswordResets.FindSpendable | Backend/src/controllers/auth.controller.ts:193-198 | The reset query gives -1 exactly when no unused, unexpired entry holds the email and code; otherwise it gives such an entry |
| PasswordResets.DeleteByEmail | Backend/src/controllers/auth.controller.ts:143 | `deleteMany({email})` leaves no entry of the email and keeps every other entry as many times as before |
| PasswordResets.Sweep | Backend/src/models/passwordReset.model.ts:38 | The TTL index removes only expired entries, and only the ones this sweep picks |
| PasswordResets.SweepKeepsSpendable | Backend/src/models/passwordReset.model.ts:38 | A sweep up to `now` never changes whether a code can be spent at `now` |
| PasswordResets.SweepKeepsOnePerEmail | Backend/src/models/passwordReset.model.ts:38 | A sweep keeps at most one entry per email |
| PasswordResets.FilterKeepsOnePerEmail | Backend/src/controllers/auth.controller.ts:143 | Dropping entries keeps at most one entry per email |
| PasswordResets.AppendKeepsOnePerEmail | Backend/src/controllers/auth.controller.ts:143-151 | Creating an entry for an email whose entries were all deleted keeps at most one entry per email |
| BodyFields.OrElse | Backend/src/controllers/resource.controller.ts:231-236 | `f \|\| fallback` is the field when it is present and non-empty, and the fallback otherwise |
| BodyFields.CastNumber | Backend/src/models/resource.model.ts:63-66 | Mongoose's number cast: empty text gives no value; other text casts exactly when `Number` reads it, and to that value; a number stays as it is |
| BodyFields.TextCasts | Frontend/src/hooks/useUpload.tsx:73 | A number sent as its decimal text casts to that number |
| BodyFields.SignedDigitsCast | Backend/src/models/user.model.ts:40-43 | An optionally signed run of digits casts to its value |
| AuthController.AuthUserOf | Backend/src/controllers/auth.controller.ts:48-55 | The reply's user carries the id, name, email, role, department and semester of the stored user, and no password |
| AuthController.RoleOf | Backend/src/controllers/auth.controller.ts:37 | A missing or empty role becomes 'student'; any other text must name a role in the enumeration |
| AuthController.NewUser | Backend/src/controllers/auth.controller.ts:31-40 | The document is built only when the schema accepts it: non-empty required strings, a semester that casts, a valid role |
| AuthController.LookupEmail | Backend/src/controllers/auth.controller.ts:24 | A missing email matches no stored user |
| AuthController.Register | Backend/src/controllers/auth.controller.ts:13-61 | Validation errors give 400 with the list, a taken email gives 400, a schema failure gives 500; otherwise 201 and the user is appended |
| AuthController.RegisterKeepsValid | Backend/src/models/user.model.ts:22-26 | Registration keeps emails unique and ids fresh |
| AuthController.RegisterDefaultsToStudent | Backend/src/controllers/auth.controller.ts:37 | A role that is left out or empty registers a student |
| AuthController.Login | Backend/src/controllers/auth.controller.ts:68-111 | The login as intended (see Findings): an unknown email and a rejected password give the same 401; a known email with an accepted password gives 200 with that user |
| AuthController.LoginHidesUnknownEmail | Backend/src/controllers/auth.controller.ts:79-90 | For the login as intended, the reply does not reveal whether an email is registered |
| AuthController.RegisterThenLogin | Backend/src/controllers/auth.controller.ts:31-90 | For the login as intended, with a comparison that accepts the registered password, a user who has just registered can log in |
| AuthController.LoginAsWritten | Backend/src/controllers/auth.controller.ts:68-111 | As the code stands: validation errors give 400, an unknown email 401, and every registered email 500, because `comparePassword` does not exist |
| AuthController.LoginAsWrittenDiverges | Backend/src/controllers/auth.controller.ts:79-90 | The handler as written agrees with the intended login exactly on the requests that never reach the password comparison |
| AuthController.LoginAsWrittenRevealsRegistration | Backend/src/controllers/auth.controller.ts:79-90 | As written, a registered email gets 500 and an unregistered one 401, whatever the passwords |
| AuthController.RegisterThenLoginAsWritten | Backend/src/controllers/auth.controller.ts:31-90 | As written, a user who has just registered cannot log in: the reply is 500 |
| AuthController.CodeNumber | Backend/src/controllers/auth.controller.ts:136 | Every draw in [0, 1) gives a code from 100000 to 999999 |
| AuthController.ResetCodeIsSixDigits | Backend/src/controllers/auth.controller.ts:136 | Every code is six decimal digits with no leading zero |
| AuthController.ForgotPassword | Backend/src/controllers/auth.controller.ts:118-175 | Users never change; an unknown email gives 404 and leaves the store alone; success exactly for a known email whose mail went out; any 500 carries the server-error message |
| AuthController.ForgotLeavesOneFreshEntry | Backend/src/controllers/auth.controller.ts:136-151 | Afterwards the email has exactly one entry: unused, with the drawn code and a 15-minute expiry; other emails' entries are kept |
| AuthController.ForgotKeepsOnePerEmail | Backend/src/controllers/auth.controller.ts:143-151 | A request keeps at most one entry per email |
| AuthController.WithPassword | Backend/src/controllers/auth.controller.ts:213-214 | Assigning and saving the password stamps `updatedAt` with the save time exactly when the password changed, and changes nothing else |
| AuthController.ResetPassword | Backend/src/controllers/auth.controller.ts:182-225 | No spendable entry gives 400, an unknown user gives 404; otherwise the password is replaced, `updatedAt` is stamped if it changed, and that entry is marked used |
| AuthController.ResetCodeSpentOnce | Backend/src/controllers/auth.controller.ts:193-218 | After a successful reset the same request gets 400 |
| AuthController.ForgotThenReset | Backend/src/controllers/auth.controller.ts:136-220 | A code issued by a successful request can be spent at any time before it expires |
| UserController.ProfileOf | Backend/src/controllers/user.controller.ts:28-38 | The profile carries the stored user's id, name, email, department, semester and timestamps |
| UserController.ProfileHidesPassword | Backend/src/controllers/user.controller.ts:21 | Two users who differ only in their password have the same profile |
| UserController.GetCurrentUser | Backend/src/controllers/user.controller.ts:11-43 | No caller gives 401, an unknown id gives 404; otherwise 200 with that user's profile |
| UserController.ParseSemester | Backend/src/controllers/user.controller.ts:71 | A JSON number is kept; text is read the way `parseInt(text, 10)` reads it |
| UserController.Apply | Backend/src/controllers/user.controller.ts:68-88 | Only the supplied fields and `updatedAt` change |
| UserController.UpdateThenGet | Backend/src/controllers/user.controller.ts:11-111 | After a successful profile update, reading the current user answers 200 with the profile the update replied with |
| UserController.UpdateCurrentUser | Backend/src/controllers/user.controller.ts:50-111 | No caller gives 401 and an email held by another user gives 400; success exactly when the validators accept the update and the caller exists, and then only the caller's document changes; otherwise nothing changes |
| UserController.UpdateChangesOnlySupplied | Backend/src/controllers/user.controller.ts:65-88 | A successful update changes no other user; in the caller's document, name, password, role and creation time stay |
| UserController.UpdateStoresParsedSemester | Backend/src/controllers/user.controller.ts:71 | The stored semester is `parseInt` of the supplied text |
| UserController.UpdateKeepsValid | Backend/src/controllers/user.controller.ts:75-93 | Emails stay unique and required fields stay non-empty |
| UserController.OwnEmailAllowed | Backend/src/controllers/user.controller.ts:75-81 | Submitting one's own current email is not refused as taken |
| ResourceController.CreateTags | Backend/src/controllers/resource.controller.ts:19-28 | A falsy or unexpected field gives no tags; a string gives the trim of each comma-separated piece, one per piece; an array gives each element trimmed |
| ResourceController.UpdateTags | Backend/src/controllers/resource.controller.ts:220-227 | A falsy field keeps the old tags; a string is parsed as at creation; an array replaces the tags untrimmed |
| ResourceController.CreateTagsRoundTrip | Backend/src/controllers/resource.controller.ts:22 | Tags typed as `a,b,c` parse to pieces that join back to that text, and no piece holds a comma or surrounding blanks |
| ResourceController.TagsSurviveCommaForm | Backend/src/controllers/resource.controller.ts:22 | A list of clean tags, sent comma-separated, is stored as the same list |
| ResourceController.ReplaceAt | Backend/src/controllers/resource.controller.ts:240-244 | Only position `k` changes |
| ResourceController.ReplaceKeepsValid | Backend/src/models/resource.model.ts:46-97 | Replacing a document with a consistent one that has the same id keeps the store valid |
| ResourceController.CreateErrors | Backend/src/models/resource.model.ts:46-97 | The schema refuses exactly the documents with an empty required string, a semester that does not cast, or no file location or type; the cast complaint, recorded at construction, comes first and only once |
| ResourceController.CastComplaintFirst | Backend/src/controllers/resource.controller.ts:30-57 | An empty title with a semester that does not cast lists the cast complaint, then the required one |
| ResourceController.CreateResource | Backend/src/controllers/resource.controller.ts:5-64 | No caller gives 401 and no file gives 400; success exactly when a caller sends a file and the schema has no complaint; a schema failure replies with exactly the complaints and leaves the store alone; success appends a document with the sent fields, the file, no upvotes and no comments |
| ResourceController.CreateKeepsValid | Backend/src/controllers/resource.controller.ts:30-51 | Creating keeps the store valid, and the new document is found under its id |
| ResourceController.GetAllResources | Backend/src/controllers/resource.controller.ts:66-77 | Every document, as a permutation of the store, newest first |
| ResourceController.GetResourceById | Backend/src/controllers/resource.controller.ts:79-95 | Only 200 or 404: 404 exactly when no document has the id, otherwise 200 with a stored document of that id |
| ResourceController.CreateThenGet | Backend/src/controllers/resource.controller.ts:30-95 | After a successful create, reading the new id answers 200 with the created document |
| ResourceController.GetUserResources | Backend/src/controllers/resource.controller.ts:305-321 | Only 200 or 401: no caller gives 401; otherwise 200 with exactly the caller's documents, newest first |
| ResourceController.ToggleUpvote | Backend/src/controllers/resource.controller.ts:114-130 | A new upvoter is appended and the count rises by one; an existing upvoter is removed once and the count falls by one, but never below zero |
| ResourceController.ToggleKeepsConsistent | Backend/src/controllers/resource.controller.ts:114-130 | The count stays equal to the number of distinct upvoters, and `hasUpvoted` tells whether the caller is now among them |
| ResourceController.ToggleTwice | Backend/src/controllers/resource.controller.ts:114-130 | Toggling twice restores the count and the set of upvoters |
| ResourceController.AddThenRemove | Backend/src/controllers/resource.controller.ts:123-128 | Pushing a new upvoter and splicing them out gives back the list |
| ResourceController.RemoveThenAdd | Backend/src/controllers/resource.controller.ts:123-128 | Splicing an upvoter out and pushing them back gives the same multiset of upvoters |
| ResourceController.UpvoteResource | Backend/src/controllers/resource.controller.ts:97-143 | No caller gives 401, an unknown id gives 404; success exactly for a caller and an existing id, and then the toggled document is saved and the reply reports it |
| ResourceController.UpvoteKeepsValid | Backend/src/controllers/resource.controller.ts:132-138 | The store stays valid; `hasUpvoted` and `upvotes` in the reply agree with the stored upvoters |
| ResourceController.AddComment | Backend/src/controllers/resource.controller.ts:145-189 | No caller gives 401, empty text gives 400 before the lookup, an unknown id gives 404; success exactly for a caller, non-empty text and an existing id, and then one comment is appended |
| ResourceController.AddCommentAppends | Backend/src/controllers/resource.controller.ts:161-184 | Earlier comments stay in order, there is exactly one more, and the reply is the last one |
| ResourceController.OwnerCheck | Backend/src/controllers/resource.controller.ts:208-217 | 401, then 404, then 403 for a caller who is not the uploader; success exactly for the owner |
| ResourceController.UpdateResource | Backend/src/controllers/resource.controller.ts:196-255 | Refusals are exactly the owner check's; the error is forwarded exactly when the owner sends a truthy semester that does not cast; otherwise 200, each field the sent value when truthy and the old value otherwise |
| ResourceController.UpdateKeepsValid | Backend/src/controllers/resource.controller.ts:230-238 | An update never empties a required field or touches the upvotes; an empty body changes only `updatedAt` |
| ResourceController.DeleteResource | Backend/src/controllers/resource.controller.ts:262-298 | After the owner check, exactly that document is removed |
| ResourceController.DeleteRemovesOnlyTarget | Backend/src/controllers/resource.controller.ts:285-290 | No document keeps the id, every other document remains, and the store stays valid |
| Search.BuildQueryMeansMatches | Backend/src/controllers/search.controller.ts:30-56 | The query selects a resource exactly when it satisfies every supplied filter |
| Search.NoParamsMatchAll | Backend/src/controllers/search.controller.ts:30-56 | With no filters every resource matches |
| Search.SortFieldOf | Backend/src/controllers/search.controller.ts:63-75 | 'upvotes' sorts by the counter, 'comments' by the number of comments, and anything else by creation time |
| Search.CeilDiv | Backend/src/controllers/search.controller.ts:106 | `Math.ceil(total / limit)`: the least page count whose pages hold `total` |
| Search.MatchesOfSpec | Backend/src/controllers/search.controller.ts:81-90 | The matches are exactly the stored resources that satisfy the filters, with every stored copy |
| Search.SearchResources | Backend/src/controllers/search.controller.ts:45-112 | The error goes to `next` exactly when the store fails or a truthy semester reads as NaN, which the store refuses to cast; otherwise the reply is the 200 page of `Search.Results` |
| Search.Results | Backend/src/controllers/search.controller.ts:59-106 | The 200 reply echoes page and limit, `total` counts every match, and `pages` is `ceil(total / limit)` |
| Search.NonNumericSemesterForwarded | Backend/src/controllers/search.controller.ts:45 | `?semester=abc` is never an empty page: the cast error is forwarded |
| Search.SearchResultsMatch | Backend/src/controllers/search.controller.ts:30-95 | Every returned resource is stored and satisfies every filter, and the page is in the requested order |
| Search.SearchPageBounds | Backend/src/controllers/search.controller.ts:59-94 | A page is full while `limit` matches remain, holds the remainder otherwise, and is empty past the end |
| Search.SameFiltersSameMatches | Backend/src/controllers/search.controller.ts:30-56 | Sort and paging parameters do not change which resources match |
| Search.TotalIgnoresPaging | Backend/src/controllers/search.controller.ts:98 | `total` is the same for every page, page size and sort |
| Search.NoParamsCountsAll | Backend/src/controllers/search.controller.ts:98 | With no filters `total` is the size of the collection |
| Search.SearchIsWindowOfSortedMatches | Backend/src/controllers/search.controller.ts:78-95 | Both the in-memory path and the store path give the window at `skip` of the fully sorted matches |
| Search.PageKWindow | Backend/src/controllers/search.controller.ts:59-61 | Page `k` is the window at `(k - 1) * limit` |
| Search.AllPagesAreTheSortedMatches | Backend/src/controllers/search.controller.ts:59-106 | With one tie order shared by every request, pages 1 to `pages`, concatenated, are all the matches in sorted order |
| Search.EveryPageIsItsWindow | Backend/src/controllers/search.controller.ts:59-61 | With one tie order shared by every request, each page up to the page count is its window of the ordered matches |
| Search.PagesCoverOrdered | Backend/src/controllers/search.controller.ts:106 | The windows up to the page count cover every ordered match |
| Search.SearchDefaults | Backend/src/controllers/search.controller.ts:24-26 | With nothing sent, the reply is the twenty newest matches on page 1 |
| Search.OneMatchPagination | Backend/tests/resource.search.test.ts:66-75 | One match with page 1 of 10 reports total 1, page 1, limit 10, pages 1 |
| Search.TwentyFiveMatches | Backend/src/controllers/search.controller.ts:61-106 | 25 matches in pages of 10: pages 1, 3 and 4 hold 10, 5 and 0, and every reply says 3 pages |
| SearchState.Get | Frontend/src/pages/resources/ResourcesPage.tsx:26-32 | `get` gives null exactly when no pair has the key, and otherwise a value stored under the key |
| SearchState.GetConcat | Frontend/src/pages/resources/ResourcesPage.tsx:48-72 | A lookup in a concatenation searches the first part before the second |
| SearchState.NumberParam | Frontend/src/pages/resources/ResourcesPage.tsx:26-27 | An absent or empty value gives the default; any other value is read with `Number` |
| SearchState.TextParam | Frontend/src/pages/resources/ResourcesPage.tsx:28-31 | An empty or absent value gives undefined |
| SearchState.FromUrl | Frontend/src/pages/resources/ResourcesPage.tsx:25-33 | Page 1, limit 12 and 'recent' by default; text filters only when non-empty; the semester through `Number` |
| SearchState.Emit | Frontend/src/pages/resources/ResourcesPage.tsx:50-72 | A parameter is written exactly when it has a value to write |
| SearchState.ToUrl | Frontend/src/pages/resources/ResourcesPage.tsx:46-76 | The URL holds at most one pair per parameter; the `ToUrlGet` lemmas state what each key reads back as |
| SearchState.ToUrlGet | Frontend/src/pages/resources/ResourcesPage.tsx:48-72 | Reading each key of the written URL gives what was written for it, and the limit is never there |
| SearchState.ToUrlGetPaging | Frontend/src/pages/resources/ResourcesPage.tsx:50-60 | The page, the limit, the search text and the department read back as written |
| SearchState.ToUrlGetSemester | Frontend/src/pages/resources/ResourcesPage.tsx:62-64 | The semester reads back as written |
| SearchState.ToUrlGetFileType | Frontend/src/pages/resources/ResourcesPage.tsx:66-68 | The file type reads back as written |
| SearchState.ToUrlGetSort | Frontend/src/pages/resources/ResourcesPage.tsx:70-72 | The sort reads back as written |
| SearchState.UrlRoundTrip | Frontend/src/pages/resources/ResourcesPage.tsx:25-76 | Decoding the written URL gives back the parameters, for any parameters a reload can produce |
| SearchState.ReadsBack | Frontend/src/pages/resources/ResourcesPage.tsx:25-33 | Any query with the written values decodes to the parameters |
| SearchState.UrlStable | Frontend/src/pages/resources/ResourcesPage.tsx:25-76 | Decoding and writing again gives the same URL |
| SearchState.ReloadResetsLimit | Frontend/src/pages/resources/ResourcesPage.tsx:27-76 | After a reload the limit is 12, whatever it was |
| SearchState.Merge | Frontend/src/hooks/useResources.tsx:78 | A key in the patch overrides, even when it is undefined; every other key keeps its value |
| SearchState.MergeLaws | Frontend/src/hooks/useResources.tsx:78 | The empty patch changes nothing, a patch applied twice acts once, and two merges in a row are one merge |
| SearchState.FilterChangeResetsPage | Frontend/src/components/resources/ResourceList.tsx:39-76 | A filter change returns to page 1 and changes only that filter and the page; a sort change keeps the page |
| SearchState.SemesterOptionSelects | Frontend/src/components/resources/ResourceList.tsx:53-60 | Picking the option for semester `n` selects `n`; 'All Semesters' clears the semester |
| SearchState.InitHook | Frontend/src/hooks/useResources.tsx:10-23 | The hook starts with no results, the initial pagination, loading on, and the given or default parameters |
| SearchState.Fetch | Frontend/src/hooks/useResources.tsx:25-42 | Success replaces the results and pagination and clears the error; failure keeps them and shows the server's message or the default; loading ends either way |
| SearchState.UpdateSearch | Frontend/src/hooks/useResources.tsx:77-81 | The merged parameters are stored and are the ones sent |
| SearchState.PageThenFilter | Frontend/src/hooks/useResources.tsx:77-81 | A page change followed by a filter change ends on page 1 with the filter set |
| SearchState.PagerOf | Frontend/src/components/resources/ResourceList.tsx:226-264 | The bar appears only with more than one page; Previous is disabled on page 1 and Next on the last page |
| SearchState.PagerStaysInRange | Frontend/src/components/resources/ResourceList.tsx:232-258 | From a page in range, every enabled button leads to a page in range, and exactly one page button is marked |
| SearchState.PagerShownIffOverflow | Frontend/src/components/resources/ResourceList.tsx:226 | The bar appears exactly when the matches do not fit on one page |
| SearchState.ViewOf | Frontend/src/components/resources/ResourceList.tsx:85-223 | An error replaces everything; otherwise the spinner while loading, the empty notice when nothing was found, and the cards otherwise |
| SearchState.FetchDecidesView | Frontend/src/hooks/useResources.tsx:25-42 | After a failed fetch only the error shows; after a successful one the listing shows |
| SearchState.DistinctAscending | Frontend/src/pages/resources/ResourcesPage.tsx:82 | Each semester appears once, in strictly ascending order, and the values are exactly the input's |
| SearchState.DepartmentOptions | Frontend/src/pages/resources/ResourcesPage.tsx:81 | Each listed department once, in order of first appearance, and nothing else |
| SearchState.SemesterOptions | Frontend/src/pages/resources/ResourcesPage.tsx:82 | Each listed semester once, ascending, and nothing else |
| SearchState.FileTypeOptions | Frontend/src/pages/resources/ResourcesPage.tsx:83 | Each listed file type once, in order of first appearance, and nothing else |
| SearchState.ExtractOptions | Frontend/src/pages/resources/ResourcesPage.tsx:79-91 | With results, the departments and file types each once in order of first appearance, the semesters each once ascending, exactly the listed values; with none, the old options stay |
| SearchState.ListedResourceIsOffered | Frontend/src/components/resources/ResourceList.tsx:120-162 | Every listed resource's department and semester are offered, so the selects can show them |
| SearchState.UpvoteRefetch | Frontend/src/pages/resources/ResourcesPage.tsx:105-111 | The list is refetched exactly when the URL sorts by upvotes |
| SearchState.UpvoteRefetchFollowsSort | Frontend/src/pages/resources/ResourcesPage.tsx:70-111 | With the URL written from the current parameters, an upvote refetches exactly when the list sorts by upvotes |
| Display.FileExtension | Frontend/src/components/resources/ResourceCard.tsx:46-49 | The badge is never empty: 'FILE' when nothing follows the last '.', and otherwise that text upper-cased |
| Display.ExtensionAfterLastDot | Frontend/src/components/resources/ResourceCard.tsx:46-49 | The badge of `x.e` is `e` upper-cased |
| Display.ExtensionWithoutDot | Frontend/src/components/resources/ResourceCard.tsx:46-49 | A URL with no '.' shows itself, upper-cased |
| Display.StoredFileShowsExtension | Backend/src/middlewares/s3Uploader.ts:33-37 | A stored file's card shows its original extension |
| Display.IconOf | Frontend/src/components/resources/ResourceCard.tsx:11-43 | The first category matched, in the order PDF, document, presentation, image, decides the icon; otherwise generic |
| Display.OfficeTypesShowAsDocuments | Frontend/src/components/resources/ResourceCard.tsx:18-24 | PPTX and XLSX files get the document icon, because their types contain "doc" |
| Display.CardOf | Frontend/src/components/resources/ResourceCard.tsx:63-64 | A new card shows the stored count and is not busy |
| Display.PressUpvote | Frontend/src/components/resources/ResourceCard.tsx:71-81 | With nobody logged in, only an error shows; while a request is in flight, nothing happens; otherwise one request goes out |
| Display.SettleUpvote | Frontend/src/components/resources/ResourceCard.tsx:81-92 | Success shows the server's count and tells the page; failure keeps the count; the card is free again either way |
| Display.DoubleClickSendsOnce | Frontend/src/components/resources/ResourceCard.tsx:76-80 | Two clicks before the answer send one request |
| Display.CardShowsStoredUpvoters | Frontend/src/components/resources/ResourceCard.tsx:80-81 | After a successful upvote, the card shows the stored number of upvoters |
| Display.PreviewOf | Frontend/src/components/resources/PDFPreview.tsx:23-133 | A PDF gets the frame with the toolbar hidden, else an image gets a picture, else no preview |
| Display.IconAgreesWithPreview | Frontend/src/components/resources/PDFPreview.tsx:23-29 | The frame appears exactly for the PDF icon, and the picture for every type with the image icon |
| Display.DisplayName | Frontend/src/components/resources/PDFPreview.tsx:32 | The file name if given, else the URL's last segment, else 'document' |
| Display.DisplayNameFromUrl | Frontend/src/components/resources/PDFPreview.tsx:32 | A URL ending in '/' gives 'document' |
| Display.UploadsViewOf | Frontend/src/components/profile/UploadsList.tsx:15-68 | A skeleton while loading, then the error, then the empty notice; otherwise every upload, newest first |
| Display.NewestListedFirst | Frontend/src/components/profile/UploadsList.tsx:66-68 | The newest upload is listed first |
| Display.TypeLabel | Frontend/src/components/profile/UploadsList.tsx:97 | The label is missing exactly when the type has no '/', and it never holds a '/' |
| Display.TypeLabelOfMime | Frontend/src/components/profile/UploadsList.tsx:97 | For a MIME type `top/sub`, the label is the subtype |
| Display.ShownUpvotes | Frontend/src/components/profile/UploadsList.tsx:110 | A missing, zero or NaN count shows 0; any other count shows itself |
| ResetForm.EmailIssues | Frontend/src/pages/auth/ResetPassword.tsx:15 | The email field fails exactly on an invalid address |
| ResetForm.CodeIssues | Frontend/src/pages/auth/ResetPassword.tsx:16-19 | The code reports a length issue (length in UTF-16 code units) and a digits issue independently, clean exactly for six digits |
| ResetForm.PasswordIssues | Frontend/src/pages/auth/ResetPassword.tsx:20-22 | The password fails exactly when it is shorter than 6 UTF-16 code units |
| ResetForm.ConfirmIssues | Frontend/src/pages/auth/ResetPassword.tsx:23-30 | The confirmation is clean exactly when it is non-empty and matches; on a mismatch, an empty confirmation shows its own message first, and the mismatch is always the last issue |
| ResetForm.SchemaIssues | Frontend/src/pages/auth/ResetPassword.tsx:14-30 | No issues exactly for a valid email, a six-digit code, a password of 6 or more UTF-16 code units, and a matching confirmation |
| ResetForm.FieldMessage | Frontend/src/pages/auth/ResetPassword.tsx:14-30 | A field shows nothing exactly when no issue names it, and otherwise one of its own issues |
| ResetForm.SchemaRuns | Frontend/src/pages/auth/ResetPassword.tsx:14-30 | Each field shows the first issue of its own check, whatever the other fields report |
| ResetForm.ResetCodeRule | Frontend/src/pages/auth/ResetPassword.tsx:16-19 | The code is clean exactly for six digits; a length other than 6 code units shows the length message first |
| ResetForm.MismatchShownOnConfirmation | Frontend/src/pages/auth/ResetPassword.tsx:27-30 | A mismatch shows on the confirmation field unless the confirmation is empty |
| ResetForm.PasswordFieldShowsLength | Frontend/src/pages/auth/ResetPassword.tsx:20-30 | The new-password field never shows the mismatch, only the length message below 6 code units |
| ResetForm.AstralPasswordLongEnough | Frontend/src/pages/auth/ResetPassword.tsx:20-22 | "abcd😀" is long enough for the form |
| ResetForm.AstralCodeFailsDigits | Frontend/src/pages/auth/ResetPassword.tsx:16-19 | "1234😀" has the right length and shows the digits message |
| ResetForm.GeneratedCodesPass | Backend/src/controllers/auth.controller.ts:136 | Every code the server sends passes the form's code rule |
| ResetForm.RouteError | Frontend/src/pages/auth/ResetPassword.tsx:54-85 | An expired code goes to the code field, an unknown user to the email field, a list of errors to the named fields, and anything else to a toast |
| ResetForm.AnswerOf | Backend/src/controllers/auth.controller.ts:185-223 | The body of each failure is its message or its error list |
| ResetForm.ResetFailuresRouted | Backend/src/controllers/auth.controller.ts:182-225 | Every way the reset handler can fail lands on the matching field or in a toast |
| Validation.Text | Backend/src/middlewares/auth.validation.ts:8-16 | A field that is left out is seen as the empty string |
| Validation.Rule | Backend/src/middlewares/auth.validation.ts:8-16 | A failed check adds exactly one error for its field |
| Validation.Field | Backend/src/controllers/resource.controller.ts:30-41 | A field that is present is passed on as its text, and an absent one as no value |
| Validation.MapField | Backend/src/middlewares/auth.validation.ts:8-9 | A sanitizer changes only its own field, and only when that field was sent |
| Validation.RegisterErrors | Backend/src/middlewares/auth.validation.ts:7-17 | No errors exactly for a non-empty name, a valid email, a password of 6 or more characters, a department, a numeric semester, and a valid role if one is sent |
| Validation.AccountErrors | Backend/src/middlewares/auth.validation.ts:8-10 | No errors exactly for a name, a valid email and a password of 6 or more characters |
| Validation.StudyErrors | Backend/src/middlewares/auth.validation.ts:11-16 | No errors exactly for a department, a numeric semester and a valid role if one is sent |
| Validation.SanitizeRegister | Backend/src/middlewares/auth.validation.ts:8-9 | The name is trimmed, the email normalized, and nothing else changes |
| Validation.RegisterRulesAdmitUser | Backend/src/middlewares/auth.validation.ts:7-17 | A body the rules admit, with a non-blank name and a whole-number semester, builds a user the schema accepts |
| Validation.BlankNamePassesRule | Backend/src/middlewares/auth.validation.ts:8 | A blank name passes the rule, but its trimmed form is refused by the schema |
| Validation.LoginErrors | Backend/src/middlewares/auth.validation.ts:22-25 | No errors exactly for a valid email and a non-empty password |
| Validation.ResourceErrors | Backend/src/middlewares/resource.validation.ts:8-18 | No errors exactly for a title, subject and department and a numeric semester; a missing semester fails both semester checks |
| Validation.ResourceOptionalFieldsUnchecked | Backend/src/middlewares/resource.validation.ts:15-17 | Description, teacher and tags never change the verdict |
| Validation.SanitizeResource | Backend/src/middlewares/resource.validation.ts:9-16 | The text fields are trimmed when sent, and the rest is unchanged |
| Validation.SanitizedResourceBody | Backend/src/middlewares/resource.validation.ts:9-11 | The handler sees the trimmed title, subject and department |
| Validation.ResourceRulesAdmitCreate | Backend/src/middlewares/resource.validation.ts:8-18 | A body the rules admit, with non-blank title, subject and department and a whole-number semester, leaves the schema nothing to complain about |
| Validation.AdmittedBodyIsCreated | Backend/src/controllers/resource.controller.ts:5-64 | Such a body, sent by a caller with a stored file, is created: 201, and the store gains the document |
| Validation.ValidateResource | Backend/src/middlewares/resource.validation.ts:23-30 | Any error gives 400 with the list; otherwise the request passes on |
| Validation.UserErrors | Backend/src/middlewares/user.validation.ts:3-24 | No errors exactly when a sent email is valid, a sent semester is an integer from 1 to 8, and a sent department is 2 to 100 characters once trimmed |
| Validation.ProfileEmailRule | Backend/src/middlewares/user.validation.ts:5-9 | An absent email passes; a sent one must be valid |
| Validation.ProfileSemesterRule | Backend/src/middlewares/user.validation.ts:12-15 | An absent semester passes; a sent one must be an integer from 1 to 8 |
| Validation.ProfileDepartmentRule | Backend/src/middlewares/user.validation.ts:18-23 | An absent department passes; a sent one must be 2 to 100 characters once trimmed |
| Validation.EmptyProfileBodyPasses | Backend/src/middlewares/user.validation.ts:3-24 | An empty body passes |
| Validation.SanitizeUser | Backend/src/middlewares/user.validation.ts:9-21 | The email is normalized, the department trimmed, and nothing else changes |
| Validation.UserRulesAdmitUpdate | Backend/src/middlewares/user.validation.ts:3-24 | A body the rules admit is never refused by the update validators |
| Uploader.FileFilter | Backend/src/middlewares/s3Uploader.ts:9-24 | The filter accepts exactly the five listed types and refuses the rest with one error |
| Uploader.DropTrailingSlashes | Backend/src/middlewares/s3Uploader.ts:35 | The result is a prefix that does not end in '/', and only slashes were removed |
| Uploader.BaseName | Backend/src/middlewares/s3Uploader.ts:35 | The last segment holds no '/' |
| Uploader.ExtName | Backend/src/middlewares/s3Uploader.ts:35 | `path.extname` is empty or a suffix of the name that starts with its only '.', and is empty for dot-files |
| Uploader.ExtNameOfName | Backend/src/middlewares/s3Uploader.ts:35 | `stem.e` has extension `.e` |
| Uploader.ExtNameNoDot | Backend/src/middlewares/s3Uploader.ts:35 | A name with no '.' has no extension |
| Uploader.ObjectKey | Backend/src/middlewares/s3Uploader.ts:33-37 | The key starts with `resources/` and ends with the original extension |
| Uploader.DistinctUuidsDistinctKeys | Backend/src/middlewares/s3Uploader.ts:35 | Distinct uuids of equal length give distinct keys |
| Uploader.Upload | Backend/src/middlewares/s3Uploader.ts:18-42 | The filter runs first; a file over 10 MiB is refused; otherwise the file is stored under its key |
| UploadClient.ValidateFile | Frontend/src/hooks/useUpload.tsx:11-43 | The file passes exactly when one is given, it is at most 15 MiB, and its type is listed; otherwise the first failing check's message |
| UploadClient.ServerAcceptedPassesClient | Frontend/src/hooks/useUpload.tsx:18-35 | Every file the server would store passes the client's check |
| UploadClient.ServerTypesStrictSubset | Backend/src/middlewares/s3Uploader.ts:9-15 | The server's types are a strict subset of the client's; spreadsheets and images pass the client and are refused by the server |
| UploadClient.FormParts | Frontend/src/hooks/useUpload.tsx:68-85 | The five metadata fields always come first and the file last; teacher and tags are present exactly when non-empty |
| UploadClient.ErrorToast | Frontend/src/hooks/useUpload.tsx:103 | A toast is never empty |
| UploadClient.UploadResource | Frontend/src/hooks/useUpload.tsx:45-115 | A request is sent exactly when both checks pass; success navigates; errors show per-field toasts or the server's message; loading always ends |
| UploadClient.SentSemesterReadsBack | Frontend/src/hooks/useUpload.tsx:73 | The server reads back the sent semester as the number entered, except 0, which is sent as empty text |

## Findings

| source | as written | input that shows it | evidently intended | confidence | as-written member | corrected member |
|---|---|---|---|---|---|---|
| Backend/src/controllers/auth.controller.ts:86 | `loginUser` calls `user.comparePassword(password)`, but `Backend/src/models/user.model.ts` defines no such method. The call throws, and the catch block answers 500 "Server error during login"; `AuthController.RegisterThenLoginAsWritten` and `AuthController.LoginAsWrittenRevealsRegistration` prove the consequences | any registered email with its registered password (and, equally, a wrong one) | a password comparison that gives 200 for the registered password and 401 otherwise, the same 401 as for an unknown email | high; not executed | AuthController.LoginAsWritten | AuthController.Login |

## Left out

- AuthController.Login: the password comparison is the `matches` parameter. The handler calls `user.comparePassword`, which the User schema does not define, and the schema has no hashing hook, so passwords are stored as given. `AuthController.LoginAsWritten` models the handler as it stands (see Findings).
- AuthController.Register: a semester such as `1.5`, which Mongoose casts and stores, reads as NaN in the model, so registration answers 500 where the source answers 201.
- ResourceController.CreateResource: a semester such as `1.5` reads as NaN in the model and gives 400 with the cast complaint, where the source stores 1.5 and answers 201.
- ResourceController.UpdateResource: a semester such as `1.5` reads as NaN in the model and is forwarded as an error, where `findByIdAndUpdate` casts and stores 1.5 and answers 200.
- Search.SearchResources: a semester such as `1.5` or `1e1`, which `Number` reads as a number but the model reads as NaN, is forwarded as an error, where the store would search for it and find no whole-number semester equal to it.
- Search.SearchResources: `uploadedBy` is taken to be a well-formed id. A malformed one would also fail the store's cast.
- ResourceController.GetResourceById: the route's `:id` is taken to be a well-formed id. For a malformed one `findById` throws a cast error that goes to `next`, where the model answers 404.
- ResourceController.UpvoteResource: the same well-formed route id is assumed; a malformed one goes to `next`, not 404.
- ResourceController.AddComment: the same well-formed route id is assumed; a malformed one goes to `next`, not 404.
- ResourceController.OwnerCheck: the same well-formed route id is assumed for update and delete; a malformed one goes to `next`, not 404.
- Validation.AccountErrors and Validation.ProfileDepartmentRule: lengths count characters. The `isLength` validator also leaves out the variation selectors U+FE0E and U+FE0F, which the model counts.
- Population: where the source sends `uploadedBy` and `comments.user` populated with the user's name and email, the model's replies carry the bare user ids. The uploader's name on the resource card is not modelled.
- Password-reset entries: their `createdAt` and `updatedAt` timestamps are not modelled, because nothing reads them.
- JWT signing and the `protect` middleware: the authenticated caller is a parameter.
- Sending mail: whether the mail went out is the `mailSent` parameter of `AuthController.ForgotPassword`.
- The S3 and multer storage engine: storing a file is modelled as returning its key and URL.
- The clock, `Math.random` and `uuidv4` are parameters. The random draw is a real number in [0, 1).
- Daylight-saving time and date arithmetic: a time is a number of milliseconds, and 15 minutes is 900000 of them.
- `isEmail` and `normalizeEmail` are parameters, because their grammars are outside this model.
- Concurrency: two requests that read and save the same document can lose an update. Each request is modelled as atomic.
- React rendering, styling and navigation are left out. Only the data each component shows and the requests it sends are modelled.
- URL percent-encoding is left out. A parameter value is taken to read back as it was written.
- Regular-expression metacharacters in search text are out of scope. `$regex` with option `i` is modelled as case-insensitive substring search on ASCII letters.
- Strings.Lower and Strings.Upper: only ASCII letters change case.
- Strings.UpperLower and Strings.LowerUpper: proved for the ASCII case mapping only. Under full Unicode mapping they fail, for example on the Kelvin sign U+212A and on 'ß'.
- Numbers.NumberOf: decimals, exponents, hexadecimal, `Infinity` and values beyond integer precision read as NaN. The model has no floating point.
- JSON `null` and non-string body values are left out, except where a handler tests a field's type (tags, the semester number).
- `getCurrentUser` replies without the role; `UserController.ProfileOf` follows the code, not the documented profile.
- The search handler's `page` and `limit` are taken to be positive integers. NaN or zero paging is left out.
- Collections.SortDesc: the store's order among equal keys is unspecified, so only ordering and permutation are stated, not stability.
- Search.AllPagesAreTheSortedMatches: assumes that every page request orders equal keys the same way. Each page is a separate query, and the store does not promise this, so two matches with equal keys on either side of a page boundary could be shown twice and not at all.
- Search.EveryPageIsItsWindow: rests on the same shared tie order as `Search.AllPagesAreTheSortedMatches`.
- SearchState.PagerStaysInRange: stated only for a current page from 1 to the page count. The Next button stays enabled when the page is past the last one.
- Display.FileExtension: states implications rather than one equation. The badge 'FILE' also appears for a URL ending in '.file'.
- Display.SettleUpvote: the toast reads "Resource upvoted!" in both toggle directions. The model records the toast text as written.
- The hook's `fetchResourceById` and `fetchUserResources`, and the preview frame's loading and error flags, are not modelled.
- Validation: the name, title, subject and department rules run before the sanitizer trims the field, as the code does. A blank value passes the rule and then fails the schema.
- Routing: `app.ts` mounts only the auth routes, `resourceValidation` is not attached to the create route, and the forgot/reset validation chains are not defined. Each handler is modelled as if its rules ran first.
