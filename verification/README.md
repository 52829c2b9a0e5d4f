# Verified model of the MobileOperator server

MobileOperator is a phone operator's server: it registers users, keeps their login
sessions, sells rates and services against a money score, and answers over a
length-prefixed byte stream. This project models the parts that hold state and proves what
they keep. `dafny verify dfyconfig.toml` checks all of it.

| file | what it models |
|---|---|
| `Base.dfy` | the option type, ids, clock and answer codes |
| `Operator.dfy` | operator tables, tariffs, billing requests; one step is one committed or failed database call |
| `Billing.dfy`, `Packages.dfy` | what every interleaving with every failure keeps: provenance of each score and package |
| `Conservation.dfy` | when scores and packages are exact: if and only if no write was computed from a stale value |
| `Serial.dfy` | independence of users and equivalence to running requests one after another |
| `Atomicity.dfy` | one request alone: failure atomicity and what its answer means |
| `Outcomes.dfy` | what each billing request does for every choice of failing calls, in terms of catalogue records and columns |
| `AuthLogic.dfy` | the operator database as a class and the five billing functions as methods |
| `Framing.dfy`, `Connection.dfy` | the byte stream: frames, a recursive parse, the reader as a function and as a class |
| `Sessions.dfy`, `SessionTable.dfy` | login sessions as a timed machine; the table class and checkSession |
| `Crypto.dfy` | hex printing and the block loop around a streaming hash |
| `Registration.dfy`, `Accounts.dfy` | registrations interleaved with each other and with billing, password checks; createUser and authUser as methods |
| `Views.dfy`, `Reports.dfy` | the aggregate queries and the functions that read their answers |

Every database function opens its own connection and prepares the SQL it carries, so the
model follows the SQL text of each function even where statement names repeat. Failures,
clocks, random salts, uninitialised variables and the scheduler are parameters of a step, so
the results hold for all of them. Scores and prices are exact numbers. Package counters are
`uint32_t` sums written to `integer` columns: the wrap-around is modelled, and a write that
does not fit fails. `count_sms` of a service message is never set by the decoder and counts
as its protobuf default, zero.

Where the code does less than one might read into it, the model follows the code and a lemma
gives the exact condition:

- A purchase the user cannot afford answers the success code and changes nothing
  (`Atomicity.UnaffordableAnswersSuccess`); success means stored exactly if it was affordable
  (`Atomicity.SuccessMeansStored`). The result of the debit is ignored.
- The result of the package read is overwritten; the credit is right for every `uint32_t`
  content of the uninitialised counters exactly if that read succeeded
  (`Atomicity.CreditNeedsTheRead`).
- Overlapping purchases of one user can lose a debit (`Conservation.OverlapLosesADebit`). With
  positive prices the score is exact if and only if every committed debit was computed from the
  score then stored (`Conservation.ScoreExactExactlyWhen`), and likewise for packages
  (`Conservation.PackageExactExactlyWhen`).
- A dead session can be revived exactly if a request on it had passed its check before
  (`Sessions.RevivalNeedsAPassedCheck`), and such a state is reached (`Sessions.RevivalHappens`).
- The session check also succeeds when the session is not live, for instance when no session has
  the id in the request, and then leaves the user id in the request as it was sent. Whatever id is
  sent, the request is dispatched as the user its session was created for if and only if the
  session was live at the check (`Sessions.RequestsRunAsTheCreator`).
- A login hands out its new session id even if the insert failed (`Sessions.IssuedIdNamesUser`).
- Registration stores the account first and then ignores failures; a complete user results
  exactly if the login has no character but blanks beyond the twelfth, the role names the
  operator database and rate 3 exists (`Registration.RegistrationCompletesExactlyWhen`).
- A stream returns the framed payloads exactly if each has 1 to 65535 bytes
  (`Framing.RoundTrip`): empty frames carry no message and larger sizes wrap in the header.

## Model

| member | source | states |
|---|---|---|
| Billing.EveryScoreExplained | server/Logic/AuthLogic.cpp:352-660 | after any interleaving with any failures each score is a starting or administrator-set score less the prices of a set of new rows of that user whose debits committed |
| Billing.NoOvercharge | server/Logic/AuthLogic.cpp:368-393 | the score of a user no administrator overwrites never rises and falls by at most the prices of the user's new rows, in fact of those whose debit committed |
| Billing.ScoreNeverNegative | server/Logic/AuthLogic.cpp:377-393 | scores stay non-negative in every run with failures if they start so and administrators store none below zero |
| Billing.KeysStayKnown | server/db/malahov.sql:58-74 | no run, whatever fails or overlaps, leaves a connection row whose user or tariff is not stored |
| Billing.AccountedRun | server/db/RatePostgresManager.cpp:224-236 | in every run the connection tables hold the starting rows and exactly one distinct row for each request that inserted, no request is lost and nothing it committed forgotten |
| Billing.DebitExplained | server/Logic/AuthLogic.cpp:392-393 | a debit taken from an explained reading charges exactly one more row, never one charged before |
| Packages.EveryPackageExplained | server/Logic/AuthLogic.cpp:395-403 | if the user's own package reads commit, the stored package is a starting or administrator-set one plus the credits of a set of the user's new rows whose package writes committed |
| Packages.NoOvercredit | server/Logic/AuthLogic.cpp:451-470 | if the user's own package reads commit, each of the four counters lies between its start and its start plus the credits of rows whose package write committed, lost updates included |
| Packages.PackageStaysReadable | server/db/UserPackagePostgresManager.cpp:4-52 | whatever fails, a package row that can be read stays there and never holds a negative counter |
| Packages.ServicesNeverMoveSms | common/ProtoHelper.cpp:4-14 | in no run do services alone change a user's sms counter, whatever sms count they are stored with |
| Packages.CommittedSumIsExact | server/db/UserPackagePostgresManager.cpp:169-188 | a package write that the integer columns accept has not wrapped around in uint32_t |
| Conservation.ScoreExactExactlyWhen | server/Logic/AuthLogic.cpp:352-484 | in every interleaving with every failure, score plus committed debits is the starting score if no debit was computed from a stale score, and for positive prices only then; after one the user keeps too much |
| Conservation.PackageExactExactlyWhen | server/Logic/AuthLogic.cpp:395-403 | the same for packages and credits, if the user's package reads commit |
| Conservation.CalmRunsAreExact | server/Logic/AuthLogic.cpp:352-484 | if the requests of a user do not overlap, score plus committed debits is constant whatever else fails, and package less committed credits is constant if the user's package reads commit |
| Conservation.FailureFreeConservation | server/Logic/AuthLogic.cpp:553-660 | without failures and overlap, score plus the prices of all paid rows is the starting score, and the package is the start plus all credits answered with success; grants leave the score alone |
| Conservation.OverlapLosesADebit | server/Logic/AuthLogic.cpp:368-393 | two overlapping purchases of any affordable item can all commit and leave two rows but one debit |
| Serial.OrderAcrossUsersIsIrrelevant | server/Logic/AuthLogic.cpp:352-660 | interleavings with the same calls in the same order for each user end in the same tables and answers |
| Serial.EquivalentToSerial | server/Logic/AuthLogic.cpp:352-660 | a run in which no two requests of a user overlap ends exactly as running the requests one after another in any order that keeps each user's own |
| Serial.RunsAreSerial | server/Logic/AuthLogic.cpp:352-660 | every run in which no two requests of one user overlap ends as its requests run one after another in the order of their first calls |
| Atomicity.PurchaseChanges | server/Logic/AuthLogic.cpp:384-416 | for every choice of failing calls a purchase that stops before or at its insert changes nothing; past it the row is stored, the debit is missing exactly if its write failed, no package changes if the answer is an error, and the credit is exact if the package read was |
| Atomicity.SuccessMeansStored | server/Logic/AuthLogic.cpp:377-416 | a success answer means that the row is stored if and only if the user could afford the item, and with an exact package read the same of row and full credit |
| Atomicity.UnaffordableAnswersSuccess | server/Logic/AuthLogic.cpp:369-382 | an unaffordable purchase answers the success code and changes nothing |
| Atomicity.GrantChanges | server/Logic/AuthLogic.cpp:580-607 | for every choice of failing calls a grant never changes a score, changes nothing without its row, and no package if it answers an error |
| Atomicity.CreditNeedsTheRead | server/Logic/AuthLogic.cpp:395-403 | the stored package is right for every `uint32_t` content of the uninitialised counters if and only if the package read succeeded |
| Atomicity.SoloIsARun | server/Logic/AuthLogic.cpp:352-417 | a request on its own is a run of the interleaving model in which nothing else is scheduled |
| AuthLogic.RatePayment | server/Logic/AuthLogic.cpp:352-417 | for every choice of failing calls: which of row, score and package change, by the price and the four counts of the stored rate name by name, and which code is answered; the same as the solo purchase in the interleaving model |
| AuthLogic.ServicePayment | server/Logic/AuthLogic.cpp:419-484 | the same by the price and three counts of the stored service, while sms stand still; a service with a negative number answers an error |
| AuthLogic.AdminUserRateChange | server/Logic/AuthLogic.cpp:553-610 | for every choice of failing calls: the row and the four counts of the stored rate are added, the score stands still, and which code is answered |
| AuthLogic.AdminUserServiceChange | server/Logic/AuthLogic.cpp:612-660 | the same for a service, which skips the user read |
| AuthLogic.AdminUpdateUserPackage | server/Logic/AuthLogic.cpp:505-551 | for every choice of failing calls: the score becomes the one sent, then the package the counters sent if they fit, and which code is answered |
| Outcomes.PaidRateIsDelivered | server/Logic/AuthLogic.cpp:384-403 | when nothing fails an affordable rate takes exactly its price and each counter rises by the count of the same name |
| Outcomes.PaidServiceIsDelivered | server/Logic/AuthLogic.cpp:451-470 | the same for a service, except that sms are never delivered |
| Outcomes.RateGrantSucceedsExactlyWhen | server/Logic/AuthLogic.cpp:580-600 | a grant leaves its row if and only if tariff read, user read and insert commit with a known user and a new key; it succeeds if and only if also the package write commits and the sums fit, and then the package has risen by the rate |
| Outcomes.ServiceGrantSucceedsExactlyWhen | server/Logic/AuthLogic.cpp:630-650 | the same for a service, without the user read |
| Outcomes.OverwriteStoresBoth | server/Logic/AuthLogic.cpp:526-545 | nothing changes if the user read or the score write fails; otherwise the score is the one sent, and the package the one sent if that write commits and fits; success if and only if all three commit and fit |
| Operator.TotalCreditMonotone | server/Logic/AuthLogic.cpp:398-401 | more rows never credit less, counter by counter |
| AuthLogic.OperatorDb.GetOffer | server/db/RatePostgresManager.cpp:4-53 | a tariff read answers success with the price and counts of the stored record, missing, or error, each exactly when it should; a service yields no sms |
| AuthLogic.OperatorDb.GetUserInfo | server/db/ClientPostgresManager.cpp:3-47 | success even without a row, and then the output is what the caller left in it |
| AuthLogic.OperatorDb.UpdateUser | server/db/ClientPostgresManager.cpp:90-129 | a committed call overwrites that user's score and nothing else |
| AuthLogic.OperatorDb.CreateConnection | server/db/RatePostgresManager.cpp:208-247 | a row is added exactly if the call commits, user and tariff exist and the key is new |
| AuthLogic.OperatorDb.GetPackage | server/db/UserPackagePostgresManager.cpp:4-52 | the counters of the row if it can be read, otherwise what the caller left in the output |
| AuthLogic.OperatorDb.UpdateCounters | server/db/UserPackagePostgresManager.cpp:153-247 | a committed call whose values fit the columns overwrites that user's package and nothing else |
| Framing.RoundTrip | common/Helper.cpp:4-21 | the parse of the concatenated frames returns the payloads if and only if each has 1 to 65535 bytes, and then leaves nothing unread |
| Framing.HeaderCarriesSize | common/Helper.cpp:6-20 | splitting and merging the header bytes gives the size modulo 65536 |
| Framing.ReaderParses | server/Session.cpp:57-113 | for every byte stream in any chunks the reader delivers the messages of the recursive parse and holds its rest |
| Framing.StreamRoundTrip | server/Session.cpp:57-113 | frames cut into any chunks are delivered as exactly the payloads, in order, and the reader then expects a header |
| Framing.PrefixDeliversPrefix | server/Session.cpp:84-113 | a prefix of a stream delivers a prefix of its messages |
| Framing.MessageSizes | server/Session.cpp:89-102 | every delivered message has 1 to 65535 bytes |
| Connection.MakeBuffer | common/Helper.cpp:4-15 | the shared buffer is framed in place, the high byte of its size first |
| Connection.Session.HandleRead | server/Session.cpp:84-113 | a header sets the size, high byte first, a body is delivered whole, an error disconnects, and a new read is posted exactly if there is no error and no stop |
| Connection.Session.Receive | server/Session.cpp:57-113 | bytes that arrive are served as the reader function says; a stopped connection serves at most the outstanding read |
| Connection.Converse | server/Session.cpp:57-113 | from its first byte on a connection has delivered exactly the messages of the stream it received |
| Sessions.RevivalNeedsAPassedCheck | server/RRManager.cpp:141-189 | a dead session can become live again, over all continuations and overlaps, if and only if some request on it has passed its check and not yet renewed |
| Sessions.RevivalHappens | server/RRManager.cpp:141-189 | two overlapping requests, one of which logs out, lead from an empty table to a dead session with a renewal pending |
| Sessions.LivenessIsHistory | server/db/SessionPostgresInfo.cpp:274-400 | without overlap a session is live at a time exactly if it was created, never closed, and the check before each renewal, and that time, came less than two hours after the touch before |
| Sessions.RequestsRunAsTheCreator | server/RRManager.cpp:141-189 | over every run before and after its check, a request reaches its body as the user its session was created for, whatever user id it was sent with, if and only if the session was live at the check; otherwise it keeps the id it was sent with |
| Sessions.CheckLeadsToTheBody | server/RRManager.cpp:147-188 | a committed check of a session that is not live, expired or unknown, puts the request in its body unnamed; on a live one two more committed calls do, renewing for two hours and naming its user; a failed call ends the request |
| Sessions.JoinedUserOpensASession | server/db/SessionPostgresInfo.cpp:22-28 | a user who has registered during the run can open a session under any new id |
| Sessions.NamesAreCreators | server/RRManager.cpp:165-182 | in every run the name a request has been given is that of the user its session was created for, and no session is created twice |
| Sessions.IssuedIdNamesUser | server/Logic/AuthLogic.cpp:136-141 | the id a login hands out names that user if and only if the insert commits or the id was already that user's |
| SessionTable.CheckSession | server/RRManager.cpp:141-189 | succeeds if and only if the check commits and, for a live session, renewal and user read do; moves the end of a live session two hours ahead; leaves the session's user id in the request if it was live and the one sent if not |
| SessionTable.Logout | server/Logic/AuthLogic.cpp:157-170 | a committed logout moves the end of that session to now and touches no other |
| SessionTable.OpenSession | server/Logic/AuthLogic.cpp:136-142 | the new id is handed out in any case, and names a session of two hours if the insert commits with a new id and a stored user |
| SessionTable.SessionPostgresInfo.UpdateSessionToNow | server/db/SessionPostgresInfo.cpp:274-313 | logging out makes the session dead from now on |
| SessionTable.SessionPostgresInfo.UpdateSession | server/db/SessionPostgresInfo.cpp:361-400 | a renewal moves the end of an existing session to two hours from now |
| SessionTable.SessionPostgresInfo.CreateSession | server/db/SessionPostgresInfo.cpp:3-42 | a session is added exactly if the id is new and the user exists |
| Crypto.HexRoundTrip | server/Crypto/CryptoHelper.cpp:4-17 | hex text is twice as long, all lower-case hex digits, and an independent decoder recovers the bytes |
| Crypto.HexIsInjective | server/Crypto/CryptoHelper.cpp:4-17 | two byte sequences print the same exactly if they are equal |
| Crypto.HexOfByte | server/Crypto/CryptoHelper.cpp:7-13 | a byte prints as the lower-case character of its high half followed by that of its low half |
| Crypto.ToHex | server/Crypto/CryptoHelper.cpp:4-17 | the printing loop yields the hex text of the first count bytes |
| Crypto.Md5Hash | server/Crypto/CryptoHelper.cpp:19-53 | for every streaming hash with the append law the block loop prints the digest of the whole word; its blocks have 16 bytes, the last fewer, and join to the word |
| Registration.RegisteredPasswordLogsIn | server/Logic/AuthLogic.cpp:42-130 | from any start, once a registration has stored its account, in every later state a password is accepted if and only if it is the registering one or the two salted words are different words of one digest; under an injective digest, only the registering one |
| Registration.HashTellsApart | server/Logic/AuthLogic.cpp:42-45 | two passwords under one salt, or one password under two salts of one length, have the same hash if and only if they are equal or their salted words collide |
| Registration.LostRace | server/db/AuthPostgresManager.cpp:45-85 | a registration whose login was taken after its check uses up an id, changes nothing else and answers the success code with a negative status |
| Registration.SoloSignupIsARun | server/Logic/AuthLogic.cpp:11-81 | a registration on its own is a run of the interleaving server |
| Registration.PaymentsAreARun | server/Logic/AuthLogic.cpp:352-660 | while no registration makes a call the server runs as the billing server of the interleaving model |
| Registration.RegisteredUsersAreComplete | server/Logic/AuthLogic.cpp:47-76 | in every interleaving of acceptable registrations without failures and billing requests with any failures, answered accounts have user, readable package and first rate, every user has an account, connections name stored users and tariffs, and at rest all tables match one to one by id |
| Registration.AnsweredForGood | server/Logic/AuthLogic.cpp:47-76 | an account whose registration has answered keeps its id and is never in progress again |
| Registration.RegistrationCompletesExactlyWhen | server/Logic/AuthLogic.cpp:47-76 | a new login becomes a complete user, and the answer is success, if and only if it fits the phone column (only blanks beyond twelve characters), the role names the operator database and rate 3 exists |
| Accounts.CreateUser | server/Logic/AuthLogic.cpp:11-81 | for every choice of failing calls: the account stored, with the hex digest of password, common salt and own salt, which of user, empty package and first rate are stored, and which code and status are answered |
| Accounts.AuthUser | server/Logic/AuthLogic.cpp:83-150 | the status is positive exactly if both reads commit, the login is stored and its hash is the hex digest of password, common salt and own salt; the code is an error exactly if a read fails |
| Accounts.AuthDb.CreateUser | server/db/AuthPostgresManager.cpp:45-85 | an account with a fresh id is added exactly if the call commits and the login is new |
| Views.FirstIsLatest | server/db/RatePostgresManager.cpp:74-92 | the first row of any answer to the current-rate query is the user's latest connection, and there is none exactly if the user has no connection |
| Views.UserRateAnswerExists | server/db/RatePostgresManager.cpp:74-78 | the query has an answer for every history, so results about its answers are never vacuous |
| Views.NewestRateIsReported | server/db/RatePostgresManager.cpp:74-92 | after a connection later than all others of the user its rate is first |
| Views.OneEntryPerActiveRow | server/db/ServiceManagerPostgres.cpp:74-91 | the join with the time window has exactly one entry for each connection that has not expired |
| Views.ExpiredStaysOut | server/db/ServiceManagerPostgres.cpp:74-80 | what a later answer lists was listed before or has been bought since |
| Views.BoughtServiceIsListed | server/db/ServiceManagerPostgres.cpp:74-80 | a service bought at some time is listed exactly from then on for its life time of days |
| Views.GroupCountsExist | server/db/ServiceManagerPostgres.cpp:273-276 | the grouping query has an answer for every history |
| Views.CountsAddUp | server/db/RatePostgresManager.cpp:267-271 | the counts of the distinct groups add up to the rows grouped |
| Views.OtherConnectionsDoNotCount | server/db/RatePostgresManager.cpp:268-270 | a connection dated in another year, or of the other kind, leaves the statistics as they are |
| Views.NewConnectionCountsOnce | server/db/ServiceManagerPostgres.cpp:273-276 | a new connection of the current year raises exactly the group of its month and tariff by one |
| Reports.GetUserRate | server/db/RatePostgresManager.cpp:55-105 | success exactly if the call commits and a connection exists, and then the latest one is returned |
| Reports.GetPackageState | server/Logic/AuthLogic.cpp:172-237 | succeeds exactly if the calls commit and a readable package and a rate exist, tells a missing package or rate from a failure, and reports package, score, latest rate and one distinct line per active service, with its tariff exactly if that could be read |
| Reports.RegisteredUsersHaveAState | server/Logic/AuthLogic.cpp:47-76 | from its answer on, through all later registrations and billing calls, a registered user meets the success condition of getPackageState |
| Reports.PurchasedRateIsReported | server/Logic/AuthLogic.cpp:194-206 | after a rate purchase that stored its row later than the user's other connections, whichever calls failed afterwards, getPackageState can succeed and whatever it reports names that rate and the score as debited |
| Reports.Statistics | server/Logic/AuthLogic.cpp:662-726 | the response has distinct pairs of month and tariff, each with its tariff and exact number of connections, and the numbers add up to all connections of the current year |
| Reports.GetStatistics | server/db/ServiceManagerPostgres.cpp:282-298 | the reading loop keeps every group with its tariff, and fails as a whole if one tariff cannot be read |

## Left out

- Sockets, TLS, the thread pool and the accept loop: library code; only "a read delivers exactly the wanted bytes" and "requests interleave at database calls" are used.
- Message bodies and protobuf encoding: the generated code is not part of this model; payloads are opaque bytes and response texts are not modelled, only codes and the registration status.
- PostgreSQL: only the tables, keys and the effect of each statement; connection strings and commits whose outcome is unknown are not modelled. A failing call has no effect.
- Rounding of score and cost, which the server keeps as float.
- Billing.EveryScoreExplained: assumes that administrator overwrites name existing users, because for a missing user the server writes to the uninitialised id it holds (`AuthLogic.AdminUpdateUserPackage` does model that write).
- Packages.EveryPackageExplained: assumes that the user's package reads commit and the package row exists; `Atomicity.CreditNeedsTheRead` shows that the code needs it.
- Conservation.ScoreExactExactlyWhen: the only-if half is for positive prices, because a second stale debit can bring back the right score when one of the two items is free.
- Conservation.PackageExactExactlyWhen: the only-if half is for tariffs that credit something, for the same reason.
- Serial.EquivalentToSerial: the serial run meets the same failures and clock readings as the run it is compared with.
- Views.OneEntryPerActiveRow: life times outside 0 to 999 days, for which the interval text of the query is malformed, are excluded where the query is used.
- Date parts, time zones and months: the calendar is an arbitrary pair of functions on an integer clock.
- Login and role in the session part of a request: checkSession replaces them together with the user id, and only the user id is modelled.
- gen_random_string: the salt and session ids it returns are arbitrary inputs.
- MD5 itself (RFC 1321, section 3): the loop is proved for every streaming hash that obeys the append law.
- User story, lists of all rates, services and users, and the dispatch switch with its one response per request: they copy rows or forward a request and keep no state of their own.
- The registry of prepared statements, configuration and logging.
