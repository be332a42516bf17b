# KBU Hub client logic, modelled in Dafny

KBU Hub is a campus community site with an anonymous bulletin board, random
chat matching, and sign-up restricted to university students. This project
models the parts of its browser scripts that make decisions. It also proves
what those parts promise.

- **Board page** (`static/js/boards.js`), split into several modules:
  - per-post anonymous numbering ("익명N") and its rebuild from stored posts
    and comments (`Anonymity`, over the records of `BoardData`);
  - post and comment like toggling (`Likes`);
  - department access control and the board catalogue (`Departments`);
  - the department accordion and board switching (`BoardView`);
  - the post filter and sort (`PostList`);
  - the author's year and status label (`YearLabel`).
- **Registration form** (`static/js/register.js`, module `Register`):
  - the eight field validators;
  - the student-id input filter;
  - the submit gate.
- **Navigation bar** (`static/js/navigation.js`, module `Navigation`):
  - deriving the page from the URL path;
  - the active-item rule;
  - the manager object that renders once and afterwards updates the
    highlight in place. As written, the mobile half of that update throws
    before changing anything (see "## Findings").
- **JavaScript string behaviour** (`JsText`). The JavaScript primitives
  these scripts depend on are written out explicitly:
  - `trim` with ECMAScript's whitespace set;
  - `length` in UTF-16 code units;
  - `/…$/i` on an ASCII pattern;
  - `replace` of the first `/`;
  - digit filtering and `parseInt` of a digit string.

State the scripts update in place is modelled with classes whose methods are
proved against specification functions:
- `Anonymity.AnonymousRegistry` for the numbering table;
- `Likes.LikeBook` for the liked set and counts;
- `BoardView.BoardPage` for the current board and the accordion;
- `Navigation.NavigationManager` for the navigation bar.

Values that come from outside the page are parameters:
- the current path;
- the current year;
- whether the chosen birthday is after today;
- the server's duplicate-id answer;
- the department the server injects.

Absent values use JavaScript's falsy cases:
- a missing author, status or department is the empty string;
- a missing key in a map is not truthy.

## Model

| member | source | states |
|---|---|---|
| `JsText.TrimEmptyIffAllSpace` | static/js/register.js:103-108 | `trim()` gives the empty string exactly when the input is all whitespace, which is the "missing" test of the trimmed fields |
| `JsText.RemoveFirstSplices` | static/js/navigation.js:36 | `replace('/', '')` removes only the first slash, wherever it is, and leaves a string without one unchanged |
| `JsText.DigitsOnlyKeepsDigits` | static/js/register.js:353 | the filtered text holds only digits, and every digit of the input as often as it occurs |
| `JsText.DigitsOnlyAppend` | static/js/boards.js:288-292 | filtering a concatenation filters each part, so a suffix without digits does not change the digits read |
| `Register.ValidateName` | static/js/register.js:101-118 | a name is accepted iff its trimmed value is non-empty and at most 11 UTF-16 units long; an all-whitespace name is "missing" and a longer one "too long" |
| `Register.ShortBmpNameAccepted` | static/js/register.js:103-111 | a name of 1 to 11 Hangul or ASCII characters with no whitespace at its ends is accepted |
| `Register.ValidateStudentIdFormat` | static/js/register.js:144-157 | the format check accepts iff the trimmed id is exactly nine decimal digits, after first reporting an all-whitespace id as missing |
| `Register.ValidateStudentId` | static/js/register.js:144-169 | accepted iff the format holds and the server does not report the id as taken; "taken" is reported only for a well-formed id |
| `Register.SanitizeStudentId` | static/js/register.js:351-358 | the filtered field is all digits, at most nine long, and a prefix of the input's digits; it is all of them when fewer than nine |
| `Register.SanitizeIdempotent` | static/js/register.js:351-358 | filtering twice equals filtering once |
| `Register.SanitizeKeepsShortDigitString` | static/js/register.js:351-358 | a value already made of at most nine digits is left alone |
| `Register.SanitizedFullIdHasValidFormat` | static/js/register.js:356-362 | when the filtered field reaches nine characters and the check is run, the format check accepts it |
| `Register.ValidateBirthday` | static/js/register.js:174-195 | accepted iff a date is chosen and it is not after today |
| `Register.ValidateGender` | static/js/register.js:200-211 | accepted iff a gender is chosen, otherwise "missing" |
| `Register.ValidateStatus` | static/js/register.js:216-228 | accepted iff a status is chosen, otherwise "missing" |
| `Register.ValidateEmail` | static/js/register.js:233-251 | accepted iff the trimmed address ends with `@bible.ac.kr`, ignoring ASCII case; an all-whitespace address is "missing" |
| `Register.KindCount` | static/js/register.js:275-279 | counts which of the three kinds (letter, digit, listed special) occur: at most 3; 0 exactly when none does; at least 2 exactly when two of the kinds occur; 3 exactly when all do |
| `Register.ValidatePassword` | static/js/register.js:256-295 | the untrimmed password is accepted iff it is 8 to 15 UTF-16 units long with at least two kinds; each rejection (empty, too short, too long, too few kinds) holds exactly under its own condition in that order |
| `Register.AcceptedPasswordLength` | static/js/register.js:265-273 | an accepted password holds 4 to 15 characters, because a character outside the BMP counts twice |
| `Register.SingleKindPasswordRejected` | static/js/register.js:275-284 | a password of letters only or digits only is never accepted |
| `Register.ValidatePasswordConfirm` | static/js/register.js:300-323 | the confirmation is accepted iff it is non-empty and equal to the password; "mismatch" exactly when non-empty and different |
| `Register.MaySubmitIffAllAccepted` | static/js/register.js:412-423 | the form is submitted iff each of the eight validators, run in the handler's order, accepts |
| `Register.SubmitGate` | static/js/register.js:408-437 | the gate opens iff every field meets its rule: name, id format and not taken, birthday, gender, status, e-mail domain, password length and kinds, matching confirmation |
| `Navigation.PageOfRoute` | static/js/navigation.js:36-41 | an empty route is the landing page, "profile-setup" belongs to chat, and any other route is itself |
| `Navigation.CurrentPage` | static/js/navigation.js:24-45 | the page is never empty and equals the route rule applied to the path with its first slash removed; the special case for "/" and "/index" agrees with that |
| `Navigation.PageOfSlashPath` | static/js/navigation.js:31-41 | a path "/" + rest names the page that `rest` stands for |
| `Navigation.ProfileSetupShowsChat` | static/js/navigation.js:31-41 | "/profile-setup" highlights the chat item and "/" the landing page |
| `Navigation.TrailingSlashKept` | static/js/navigation.js:36 | only the first slash is removed, so "/boards/" names "boards/" |
| `Navigation.Highlights` | static/js/navigation.js:50-63 | one flag per nav item, true exactly when the item's route equals the current page; the href plays no part |
| `Navigation.AtMostOneHighlighted` | static/js/navigation.js:9-15 | the five routes are distinct, so at most one item is active, and a page that is a route activates exactly its own item |
| `Navigation.NavLinksSelectTheirItem` | static/js/navigation.js:9-15 | following any nav link makes that link's own item the current page |
| `Navigation.MobileRoute` | static/js/navigation.js:213-214 | the route read from a mobile link is never empty |
| `Navigation.MobileRoutesMatch` | static/js/navigation.js:100-108 | each mobile link's href, read back by the update step, names its own item's route |
| `Navigation.MobileElementsFollowNavItems` | static/js/navigation.js:97-108 | the selector `#mobileNav .py-2` matches the href-less container first and then the five links in item order, each naming its item's route |
| `Navigation.MobileFlags` | static/js/navigation.js:93-109 | after a render the container is never active and each link is active exactly when its item's route is the page |
| `Navigation.MobilePass` | static/js/navigation.js:211-222 | the mobile pass never changes an element before its start, and completes exactly when every element from there on has an href; at the first one without, `null.replace` throws |
| `Navigation.MobilePassThrowsAtContainer` | static/js/navigation.js:211-214 | on the rendered bar the pass throws at its first element, the container, and no mobile flag changes |
| `Navigation.AsWrittenLeavesMobileStale` | static/js/navigation.js:211-222 | after moving to the page of any nav item from another page, the mobile flags as written differ from the ones that page should show |
| `Navigation.NavigationManager.constructor` | static/js/navigation.js:7-19 | the manager starts on the page of the path, initialised, having rendered once with the matching highlight |
| `Navigation.NavigationManager.Render` | static/js/navigation.js:68-110 | both bars are rebuilt with the highlight of the current page |
| `Navigation.NavigationManager.Init` | static/js/navigation.js:152-174 | the first call renders once and sets the flag; later calls never render and only delegate to the (intended) update, so both bars show the new page |
| `Navigation.NavigationManager.MoveDesktopHighlight` | static/js/navigation.js:192-208 | the loop over the desktop items leaves exactly the items whose route is the current page active |
| `Navigation.NavigationManager.UpdateNavigationAsWritten` | static/js/navigation.js:179-223 | an unchanged page changes nothing and completes; otherwise the page is stored and the desktop highlight moves, but the mobile pass throws at the container and every mobile flag keeps its old value |
| `Navigation.NavigationManager.UpdateNavigation` | static/js/navigation.js:179-223 | the intended update, with the mobile pass over the links only: an unchanged page changes nothing; otherwise the new page is stored and both bars highlight exactly the items whose route equals it |
| `Navigation.NavigationManager.UpdateCurrentPage` | static/js/navigation.js:228-231 | history navigation performs the same (intended) update |
| `Anonymity.Assign` | static/js/boards.js:38-55 | the call creates the post's entry when missing and never touches another post's entry |
| `Anonymity.AssignKeepsWellNumbered` | static/js/boards.js:40-52 | every post keeps its invariant: the counter is 1 + the number of students seen, the numbers in use are exactly 1..counter-1, and no number is shared |
| `Anonymity.AssignIsStable` | static/js/boards.js:38-55 | asking twice for the same post and student returns the same number, and the second call changes no state |
| `Anonymity.AssignGivesNumber` | static/js/boards.js:47-54 | after the call the student holds a number of at least 1, and that number is returned |
| `Anonymity.NewcomerKeepsWellNumbered` | static/js/boards.js:47-52 | admitting a newcomer at the counter's value keeps the numbers 1..counter-1 all held, each by one student |
| `Anonymity.NextNumberForNewcomer` | static/js/boards.js:40-52 | a student new to a post gets one more than the number of students already there (1 on a new post), and everyone else keeps their number |
| `Anonymity.NewPostAuthorIsOne` | static/js/boards.js:1808-1811 | on a post id the table has never seen, the author is numbered 1 and the counter moves to 2 |
| `Anonymity.ReturningStudentKeepsNumber` | static/js/boards.js:47-54 | a student who already has a number on a post gets that number back, and the table is unchanged |
| `Anonymity.DifferentStudentsDifferentNumbers` | static/js/boards.js:48-52 | two different students on the same post never receive the same number |
| `Anonymity.PostRequestsFromPosts` | static/js/boards.js:59-64 | every numbering request the rebuild makes for posts names a listed post and its known author |
| `Anonymity.ReplayKeepsNumbers` | static/js/boards.js:38-55 | any sequence of later calls leaves every number already handed out unchanged |
| `Anonymity.NumbersFollowArrivalOrder` | static/js/boards.js:40-52 | on a post new to the table, the k-th distinct student to write holds k+1, only those students hold numbers, and the counter is one past the last number |
| `Anonymity.FirstRequestGetsOne` | static/js/boards.js:40-45 | the first request for a new post gets 1 and keeps it through all later requests |
| `Anonymity.RebuildKeepsNumbers` | static/js/boards.js:58-72 | rebuilding from posts and comments never changes a number already assigned |
| `Anonymity.RebuildNumbersAuthorFirst` | static/js/boards.js:58-72 | on a post the table has not seen, the author of the first listed record with that id and a known author is numbered 1, ahead of every commenter |
| `Anonymity.AnonymousRegistry.constructor` | static/js/boards.js:35 | the table starts empty and valid |
| `Anonymity.AnonymousRegistry.AnonymousIdForPost` | static/js/boards.js:38-55 | the table update and the returned number are those of the numbering rule, the number is at least 1, and the invariant is kept |
| `Anonymity.AnonymousRegistry.ReplayPosts` | static/js/boards.js:58-63 | the first loop leaves the table as the replay of one request per post with a known author, in list order, and keeps it valid |
| `Anonymity.AnonymousRegistry.ReplayComments` | static/js/boards.js:65-70 | the second loop does the same for the comments with a known author |
| `Anonymity.AnonymousRegistry.Rebuild` | static/js/boards.js:57-71 | the table ends as the replay of the post requests followed by the comment requests |
| `Likes.ToggleEffect` | static/js/boards.js:89-107 | a toggle flips the id's membership; a like adds one to the count; an unlike subtracts one but never goes below zero |
| `Likes.ToggleIsLocal` | static/js/boards.js:83-86 | a toggle changes no other id, and an id without a record changes nothing |
| `Likes.ToggleKeepsCountsNonNegative` | static/js/boards.js:92 | counts that are non-negative stay non-negative |
| `Likes.LikeThenUnlikeRestores` | static/js/boards.js:89-107 | like followed by unlike restores both the set and the count |
| `Likes.UnlikeThenLike` | static/js/boards.js:195-216 | unlike followed by like restores the state when the count was positive; from a count of zero the pair ends at one |
| `Likes.LikeBook.constructor` | static/js/boards.js:80-81 | the session starts with nothing liked |
| `Likes.LikeBook.Toggle` | static/js/boards.js:83-107 | the ledger moves by the toggle rule, and non-negative counts stay non-negative |
| `Departments.UserDepartment` | static/js/boards.js:12 | a missing department counts as "free"; one that is set is kept |
| `Departments.AccessibleDepartments` | static/js/boards.js:15-25 | the list starts with "free", has at most two entries and no duplicates, and any entry other than "free" is the user's department; for a user whose department is not "free", that department is in the list iff it is non-empty and not "unknown" |
| `Departments.CanAccessDepartment` | static/js/boards.js:28-31 | access is granted iff the department is "free", or it is the user's own department and that department is set: non-empty, not "free" and not "unknown" (the catalogue is not consulted) |
| `Departments.FindDepartment` | static/js/boards.js:1067-1069 | the department found lists the board; none is found only when no department lists it |
| `Departments.BoardIdsCarryDepartmentInitial` | static/js/boards.js:312-384 | every board id starts with its department's initial, and the six departments have six different initials |
| `Departments.BoardsHaveOneDepartment` | static/js/boards.js:1067-1069 | no board is listed by two departments, so the lookup finds the board's only department |
| `Departments.BoardAccess` | static/js/boards.js:1072-1075 | the free boards are open to everyone; another department's boards are open exactly to its members |
| `BoardView.Collapsed` | static/js/boards.js:1113-1115 | collapsing keeps the known departments and leaves none open |
| `BoardView.ToggleDepartmentEffect` | static/js/boards.js:1106-1122 | clicking an open department closes it and leaves the others alone; clicking any other department leaves exactly that one open |
| `BoardView.ToggleKeepsAtMostOneOpen` | static/js/boards.js:1106-1122 | if at most one department is open before a toggle, at most one is open after |
| `BoardView.SwitchGuard` | static/js/boards.js:1072-1077 | a board of an inaccessible department leaves the whole view unchanged; every other board becomes current |
| `BoardView.SwitchOpensOnlyBoardsDepartment` | static/js/boards.js:1088-1096 | switching to a board of an accessible department makes that department current and the only one open |
| `BoardView.SwitchKeepsInvariants` | static/js/boards.js:1065-1103 | switching keeps at most one department open, and never makes a board of an inaccessible department current |
| `BoardView.InitialViewIsValid` | static/js/boards.js:4-8 | the initial view (free board, free department open) satisfies both invariants for any user |
| `BoardView.BoardPage.constructor` | static/js/boards.js:4-12 | the page starts on "free_board" with only "free" open, and the user's department defaults to "free" |
| `BoardView.BoardPage.CollapseAll` | static/js/boards.js:1092-1094 | the loop over the keys closes every department and adds none |
| `BoardView.BoardPage.ToggleDepartment` | static/js/boards.js:1106-1122 | the accordion moves by the toggle rule and the invariants are kept |
| `BoardView.BoardPage.SwitchBoard` | static/js/boards.js:1065-1103 | the view moves by the switch rule (refusal, board, department, accordion) and the invariants are kept |
| `PostList.SortOrderOf` | static/js/boards.js:1180-1188 | "popular" and "views" select their orders; every other value selects newest first |
| `PostList.FilterPosts` | static/js/boards.js:1164-1176 | only posts of the current board that match the search remain, each as often as it was stored |
| `PostList.FilterPostsCons` | static/js/boards.js:1164-1176 | the filter decides the first post on its own and keeps it in front of the rest |
| `PostList.FilterPostsAppend` | static/js/boards.js:1164-1176 | filtering a concatenation filters each part in place, so the kept posts stay in stored order |
| `PostList.FilterPostsSingle` | static/js/boards.js:1164-1176 | a single post is kept exactly when it is on the board and matches the search |
| `PostList.WithKeyOfFilter` | static/js/boards.js:1164-1176 | the kept posts of one sort key are the posts of that key that pass the filter, in the same order |
| `PostList.InsertIsPermutation` | static/js/boards.js:1179-1189 | one insertion step adds the post and loses none |
| `PostList.InsertKeepsSorted` | static/js/boards.js:1179-1189 | one insertion step keeps the list in descending key order |
| `PostList.SortPosts` | static/js/boards.js:1179-1189 | the sorted list is a permutation of its input with keys in descending order |
| `PostList.SortIsStable` | static/js/boards.js:1179-1189 | posts with equal keys keep their stored relative order |
| `PostList.StableSortIsUnique` | static/js/boards.js:1179-1189 | two descending arrangements of the same posts that keep the order within each key are equal, so a stable sort has one outcome |
| `PostList.DisplayedPosts` | static/js/boards.js:1160-1192 | the displayed list holds exactly the shown posts, each as often as stored, in descending key order |
| `PostList.DisplayedPostsKeepStoredOrder` | static/js/boards.js:1160-1192 | on the page, the posts of each sort key are exactly the stored posts of that key that pass the filter, in stored order |
| `PostList.DisplayedPostsAreTheStableSort` | static/js/boards.js:1160-1192 | any arrangement of the filtered posts that is sorted and keeps stored order within each key is the displayed list |
| `YearLabel.CohortOf` | static/js/boards.js:288-292 | a numeric year is used as it is; a text year reads its digits, and is NaN exactly when it has none |
| `YearLabel.StandingOf` | static/js/boards.js:299-305 | the computed standing is never a stated status, and a NaN cohort counts as enrolled |
| `YearLabel.YearDisplay` | static/js/boards.js:285-309 | the label is "익명" iff the year is falsy; a given status is shown as it is; without one the label shows the year's cohort with a computed standing |
| `YearLabel.NoStatusLabel` | static/js/boards.js:294-308 | without a status, the label is the cohort with the standing of the admission year 2000+n: enrolled for four years from it, freshman before, graduate after; a NaN cohort shows as enrolled |
| `YearLabel.StandingByAdmissionYear` | static/js/boards.js:294-306 | without a status, a student is a freshman before the admission year 2000+n, enrolled for four years from it, and a graduate from then on |
| `YearLabel.StandingOnlyMovesForward` | static/js/boards.js:299-305 | as the current year grows, a cohort's standing never moves back |
| `YearLabel.CohortTextReadsItsDigits` | static/js/boards.js:288-292 | a year text such as "22학번" gives the same label as the number its digits spell |

## Findings

| source | as written | input that shows it | evidently intended | confidence | as-written member | corrected member |
|---|---|---|---|---|---|---|
| static/js/navigation.js:211-214 | `querySelectorAll('#mobileNav .py-2')` also matches the links' container (the element `.flex.flex-col.gap-1.py-2.text-sm` of line 97), which comes before its links in document order and has no href, so `href.replace` throws on it and no mobile link's "active" class is updated | on the page of "/", a change of the path to "/boards" within the same document (a history entry pushed by another script, then `popstate`; none of the scripts modelled here push one): the desktop bar highlights "게시판" while the mobile bar still highlights "서비스 소개" | the mobile pass visits only the links, so both bars highlight the new page | not executed | `Navigation.NavigationManager.UpdateNavigationAsWritten`, `Navigation.AsWrittenLeavesMobileStale` | `Navigation.NavigationManager.UpdateNavigation`, `Navigation.NavigationManager.Init`, `Navigation.NavigationManager.UpdateCurrentPage` |

## Left out

- The chat matching and room engine. Its code is not part of this model.
- The Flask server (`app.py`): routes, sessions, the student-id lookup and
  storage. The lookup's answer enters `Register.ValidateStudentId` as a
  parameter, and a failed lookup counts as "not taken", as the source does.
- Rendering and event wiring. This covers what the page draws: tree, post
  list, detail view, like buttons, error texts, alerts and focus. It also
  covers which DOM events run the validators.
- Network and storage:
  - `fetch` calls;
  - the `localStorage` activity logs written by the like toggles;
  - loading posts and comments;
  - saving the changed counts.
- Time and randomness:
  - dates and relative times;
  - the birthday comparison, which enters as a boolean;
  - the current year, which enters as a parameter;
  - `generateAnonymousId`'s `Math.random`, used for logged-out commenters.
- `Navigation.NavigationManager.Init`: the deferred first render on
  `DOMContentLoaded` is modelled as an immediate render; the mobile-menu
  handlers are not modelled.
- `Navigation.NavigationManager.UpdateNavigation`: the desktop elements are
  modelled as the five items in order, and the mobile ones as the container
  followed by the five links. Elements missing from the page, or carrying
  other routes, are not represented. How the thrown error surfaces (an
  uncaught exception in the `popstate` handler) is not modelled.
- `Likes.LikeBook.Toggle`: the posts and comments lists are reduced to one
  count per id, the count of the first record with that id (the one `find`
  returns).
- `YearLabel.YearDisplay`: the label is returned as its parts. Formatting the
  number and the standing into text ("22학번 재학생") is not modelled, and neither is `parseInt` losing
  precision on very long digit strings.
- `PostList.FilterPosts`: `toLowerCase` is modelled for ASCII letters only.
  Non-ASCII case folding in search terms and titles is not modelled.
- `PostList.SortPosts`: the dates are taken as millisecond timestamps. The
  case of an invalid date or a non-numeric count giving `NaN` in the
  comparator is not modelled.
- `Register.ValidatePassword`: its side effect of re-running the
  confirmation check is not modelled. The submit gate runs that check
  anyway.
- JavaScript strings are sequences of UTF-16 code units. Here a string is a
  sequence of Unicode scalar values, so a lone surrogate cannot be
  represented.
- Map keys are strings. The model does not cover prototype keys such as
  `__proto__` in the numbering table or the accordion.
