# Password vault core, modelled in Dafny

This project models the browser-side core of a small team password vault. The vault keeps its
records in `localStorage` under three keys:

- `pm_users`: users by lower-cased email;
- `pm_passwords`: personal password lists by lower-cased owner email;
- `pm_teams`: teams by id.

It also keeps a session: the logged-in user and a master key.

The model covers:

- **the record store** (`js/storage.js`): the `Storage` object becomes the class
  `Storage.Store`. It has one field per storage key, and a missing key is `None`. Each CRUD
  method changes the fields as the source does. The pure operations beneath those methods
  (lookup by lower-cased email, upsert by id, filter by id) are proved to keep the store's
  invariants.
- **the snapshot merge** (`mergeDatabase` in `js/app.js`): module `Merge` defines the result as
  functions over the three maps and proves what the merge promises. Users are overwritten whole.
  Personal and team passwords are unioned by id, and the stored copy wins. Members are unioned
  by lower-cased email. Unknown teams are inserted as they come. Nothing stored is removed or
  reordered. Module `App` holds the imperative merge itself: set-driven loops that append in
  place, proved equal to those functions.
- **creating and joining teams** (`handleCreateTeam`, `handleJoinTeam`): the team records they
  build and save.
- **the crypto utilities** (`js/crypto.js`):
  - the fallback `simpleHash` with exact 32-bit JavaScript arithmetic;
  - the hex codecs;
  - the XOR stream cipher and `encrypt`/`decrypt`;
  - password hashing over an abstract SHA-256;
  - the password and invite-code generators;
  - the strength meter.
- **authentication** (`js/auth.js`): registration, login, logout, the session predicates and
  the email pattern.

The central results are:

- `App.MergeDatabase` is proved to produce `Merge.Merge`.
- Repeating a merge stabilises. It is idempotent when every incoming team carries a password
  list (`Merge.MergeIdempotent`, `Merge.MergeStabilizes`).
- A merge of a consistent snapshot into a consistent store keeps the store consistent
  (`Merge.MergePreservesDbOk`).
- When the team loop throws, the user and password writes already made remain
  (`Merge.MergeFailureIsPartial`).
- `hexToBuffer(bufferToHex(b)) == b` for non-empty `b` (`Crypto.HexRoundTrip`).
- Decryption undoes encryption (`Crypto.EncryptRoundTrip`).
- A freshly registered account can always log in (`Auth.RegisteredUserCanLogIn`).

Modules, one per file:

- `Wrappers`: Option, Result, Outcome.
- `Text`: JavaScript whitespace, `trim`, ASCII case mapping, UTF-16 code units.
- `Records`: the stored records and the store invariant `DbOk`.
- `Merge`, `Crypto`, `Storage`, `App`, `Auth`.

How JavaScript is represented:

- Strings are sequences of Unicode scalar values. Where the source does arithmetic on
  `charCodeAt` or reads `.length`, the model works on their UTF-16 code units (`Text.Utf16`).
- A JavaScript exception becomes an `Err`/`Fail` value.
- The clock, `generateId`, the random sources and the SHA-256 digest are parameters.

## Model

| member | source | states |
|---|---|---|
| Text.Trim | js/app.js:436 | the result is a contiguous slice of the input outside which there is only JavaScript whitespace or line terminators; it is empty exactly when every character is such whitespace, and otherwise neither starts nor ends with it |
| Text.ToLower | js/storage.js:80-83 | same length; every character is lower-cased (ASCII letters only) |
| Text.ToUpper | js/app.js:495 | same length; every character is upper-cased (ASCII letters only) |
| Text.ToLowerIdempotent | js/storage.js:88-92 | lower-casing an already lower-cased email changes nothing, so a record saved under its lower-cased email is found by its own email |
| Text.JsLengthAppend | js/crypto.js:193-195 | the UTF-16 `.length` of a concatenation is the sum of the two lengths |
| Merge.Fresh | js/app.js:684-688 | the kept elements are exactly the incoming elements whose key is not in the set built before the loop |
| Merge.AppendFresh | js/app.js:683-688 | the stored list stays as a prefix; the appended part holds exactly the incoming elements whose key the stored list lacks; no element with a stored key is added |
| Merge.FreshAppend | js/app.js:684-688 | filtering a concatenation filters each part, so incoming order is kept |
| Merge.AppendFreshIdempotent | js/app.js:683-688 | appending the same incoming list a second time adds nothing |
| Merge.AppendFreshSelf | js/app.js:683-688 | merging a list into itself leaves it unchanged |
| Merge.FreshUnique | js/app.js:684-688 | the filtered elements of a duplicate-free list are duplicate-free |
| Merge.AppendFreshUnique | js/app.js:683-688 | duplicate-free stored and incoming lists merge into a duplicate-free list |
| Merge.MergePasswords | js/app.js:677-691 | the owners after the merge are the stored owners plus the incoming ones |
| Merge.MergePasswordsOver | js/app.js:677-691 | after some owners are processed, the owners are the stored ones plus those processed |
| Merge.MergedTeam | js/app.js:696-709 | a merged team keeps id, name, invite code, creator and creation time, and has both lists |
| Merge.MergeTeams | js/app.js:693-715 | the team loop throws exactly when a team present on both sides lacks its member list; otherwise the ids are the union |
| Merge.MergeTeamsOver | js/app.js:693-715 | after some teams are processed without a throw, the ids are the stored ones plus those processed |
| Merge.TeamsAfter | js/app.js:693-715 | when the team loop throws, the stored team map is left as it was |
| Merge.MergeOverwritesUsers | js/app.js:671-675 | incoming users replace stored users with the same key whole; other users are unchanged |
| Merge.MergeKeepsPasswords | js/app.js:677-691 | every stored personal list remains as a prefix; each incoming owner's list becomes the stored list plus exactly the incoming entries with new ids; owners not in the snapshot are untouched |
| Merge.MergeInsertsNewTeams | js/app.js:710-712 | a team id not stored before is inserted with the incoming record as it is |
| Merge.MergeKeepsTeams | js/app.js:695-709 | every stored team remains with its identity fields and with its lists as prefixes; a team that changed was merged with its incoming copy |
| Merge.MergeFailureIsPartial | js/app.js:670-716 | the merge fails exactly when the team loop throws, and then the users and passwords are already merged while the teams are not |
| Merge.MergePasswordsIdempotent | js/app.js:677-691 | merging the same personal passwords twice equals merging them once |
| Merge.MergedTeamIdempotent | js/app.js:696-709 | merging the same incoming team into a merged team changes nothing |
| Merge.MergedTeamSelf | js/app.js:696-709 | merging a complete team into itself changes nothing |
| Merge.MergeTeamsOfFixed | js/app.js:693-715 | a team map in which every incoming team is already absorbed is left unchanged |
| Merge.MergeTeamsFixesStored | js/app.js:693-715 | after a successful team merge every incoming team is present, and every team that was stored has absorbed its incoming copy |
| Merge.TeamsAfterIdempotent | js/app.js:693-715 | when every incoming team has a password list, merging the teams twice equals merging once |
| Merge.TeamsAfterStabilizes | js/app.js:693-715 | a third team merge of the same snapshot changes nothing |
| Merge.MergeIdempotent | js/app.js:670-716 | a second import of the same snapshot leaves the store unchanged when every incoming team has a password list; whether it throws is stated by `Merge.MergeOutcomeRepeats` |
| Merge.MergeOutcomeRepeats | js/app.js:693-715 | when every incoming team has a member list, a second import throws exactly when the first did |
| Merge.SecondMergeOfMemberlessTeamThrows | js/app.js:695-697 | a new team without a member list is inserted by a first import; a second import of it throws and leaves the store as it was |
| Merge.MergeStabilizes | js/app.js:670-716 | a third import of the same snapshot leaves the store unchanged, for every snapshot |
| Merge.SecondMergeAddsPasswordList | js/app.js:703-711 | a new team without passwords is inserted verbatim by a first import and gets `[]` from a second one, so a single repeat is not always a no-op |
| Merge.MergePreservesDbOk | js/app.js:670-716 | importing a consistent snapshot into a consistent store succeeds and keeps every invariant: user keys, unique ids, unique member emails, team keys |
| Merge.MergePasswordsKeepOk | js/app.js:677-691 | merging password maps whose lists have unique ids keeps every list's ids unique |
| Merge.TeamsAfterKeepOk | js/app.js:693-715 | merging two consistent team maps does not throw and keeps member emails and password ids unique and every team keyed by its id |
| Merge.DuplicateIncomingMembersBothAppended | js/app.js:697-702 | two incoming members whose emails differ only in case are both appended, because the set is built before the loop |
| Merge.LocalCopyWinsScenario | js/app.js:683-688 | stored `[id1, id3]` merged with incoming `[id1', id2]` gives `[id1, id3, id2]`: the stored copy of id1 wins |
| Crypto.ToInt32 | js/crypto.js:17-18 | the int32 conversion of `<<`, `&` and `^` lies in the signed 32-bit range and agrees with its input modulo 2^32 |
| Crypto.Hash31StepIsAffine | js/crypto.js:17-18 | modulo 2^32, one step of the loop is `31 * hash + code` |
| Crypto.Hash31 | js/crypto.js:14-19 | the first hash stays a signed 32-bit integer |
| Crypto.Djb | js/crypto.js:30-33 | the round hash stays a signed 32-bit integer |
| Crypto.XorInvolution | js/crypto.js:119 | xor-ing twice with the same value restores the input |
| Crypto.XorBound | js/crypto.js:119 | the xor of two k-bit numbers is a k-bit number |
| Crypto.XorKeepsHighBits | js/crypto.js:119 | xor with a value below 2^m leaves the bits from m upward unchanged |
| Crypto.SimpleHashRound | js/crypto.js:29-35 | the loop returns the absolute value of the 32-bit DJB hash, at most 2^31 |
| Crypto.HexDigit | js/crypto.js:57 | a lower-case hex digit whose value is the input |
| Crypto.ToHex | js/crypto.js:21 | `toString(16)` is non-empty lower-case hex without a leading zero |
| Crypto.ToHexParses | js/crypto.js:21 | `toString(16)` reads back as the number |
| Crypto.ToHexLength | js/crypto.js:24 | a number below 16^k has at most k hex digits, so `padStart(8, '0')` yields exactly 8 |
| Crypto.PadStart | js/crypto.js:24 | the result has the target length, or the input's length when that is longer; the input is its suffix and the rest is fill |
| Crypto.RoundHex | js/crypto.js:24 | each round contributes exactly 8 lower-case hex digits |
| Crypto.Rounds | js/crypto.js:23-25 | n rounds give 8n lower-case hex digits |
| Crypto.SimpleHashOf | js/crypto.js:13-27 | the fallback hash is 64 lower-case hex digits |
| Crypto.SimpleHash | js/crypto.js:13-27 | the two loops compute the fallback hash |
| Crypto.ByteHex | js/crypto.js:57 | a byte becomes its high and low nibble as hex digits |
| Crypto.BufferToHex | js/crypto.js:55-59 | two lower-case hex digits per byte |
| Crypto.Utf16OfBufferToHex | js/crypto.js:55-59 | the code units of `bufferToHex(b)` are the two digit units of each byte, in order |
| Crypto.Chunks | js/crypto.js:65 | every match of `/.{1,2}/g` is one or two code units long |
| Crypto.HexPrefix | js/crypto.js:66 | the digits `parseInt(_, 16)` reads: the longest prefix of hex digits |
| Crypto.ParseIntHex | js/crypto.js:66 | `parseInt(_, 16)` is NaN exactly when no hex digit follows the whitespace, sign and `0x` it skips |
| Crypto.ParseChunks | js/crypto.js:66 | one byte per match: its parsed value modulo 256, with NaN stored as 0 |
| Crypto.HexToBuffer | js/crypto.js:64-67 | `hexToBuffer` throws exactly when the regex finds no match; otherwise one byte per match |
| Crypto.ByteHexParses | js/crypto.js:55-67 | the two hex digits of a byte parse back to the byte |
| Crypto.ParsePairList | js/crypto.js:66 | parsing the two-digit pairs of a byte sequence one by one gives back the byte sequence |
| Crypto.ChunksOfHexPairs | js/crypto.js:65 | the matches in a `bufferToHex` output are exactly its two-digit pairs |
| Crypto.HexRoundTrip | js/crypto.js:55-67 | `hexToBuffer(bufferToHex(b))` is `b` for every non-empty byte sequence and throws for the empty one |
| Crypto.XorWith | js/crypto.js:118-121 | the xor-ed text has as many code units as the input |
| Crypto.XorStream | js/crypto.js:116-121 | the loop keyed by `simpleHash(key)` keeps the number of code units |
| Crypto.XorLoop | js/crypto.js:116-121 | the character loop computes the xor stream keyed by `simpleHash(key)` |
| Crypto.XorUnit | js/crypto.js:119-120 | xor with a hex-digit code keeps a unit 16-bit and keeps its surrogate class, and a second xor restores it |
| Crypto.XorWithInvolution | js/crypto.js:118-131 | xor-ing with the same key hash twice restores the text |
| Crypto.XorStreamInvolution | js/crypto.js:115-138 | `xorDecrypt` undoes `xorEncrypt` with the same key, up to the transport encoding |
| Crypto.XorWithWellFormed | js/crypto.js:119-122 | the xor-ed units are well-formed UTF-16 exactly when the input units are |
| Crypto.XorWithKeepsWellFormed | js/crypto.js:119-122 | xor-ing keeps every unit's surrogate class, so well-formed units stay well-formed |
| Crypto.Utf16WellFormed | js/crypto.js:122 | the UTF-16 of any string is well-formed, so `encodeURIComponent` does not throw |
| Crypto.XorEncrypt | js/crypto.js:115-123 | `xorEncrypt` always succeeds and yields the xor stream of the text under `simpleHash(key)` |
| Crypto.XorDecrypt | js/crypto.js:125-138 | `xorDecrypt` applies the same stream to the decoded units |
| Crypto.Encrypt | js/crypto.js:143-148 | the salt is 32 lower-case hex digits and the iv is "fallback" |
| Crypto.EncryptRoundTrip | js/crypto.js:143-160 | decrypting with the encrypting password gives back the JSON text |
| Crypto.HashPassword | js/crypto.js:72-90 | the salt is the 32 lower-case hex digits of the 16 salt bytes; the hash is lower-case hex |
| Crypto.HashThenVerify | js/crypto.js:72-110 | `verifyPassword` accepts the password a hash was made from, under the same digest environment |
| Crypto.Charset | js/crypto.js:168-173 | the character set is never empty |
| Crypto.SymbolsAreNotAlnum | js/crypto.js:172 | no symbol character is a letter or a digit |
| Crypto.LowerMembers | js/crypto.js:169 | the lower-case class string holds exactly the letters a to z |
| Crypto.UpperMembers | js/crypto.js:170 | the upper-case class string holds exactly the letters A to Z |
| Crypto.DigitMembers | js/crypto.js:171 | the digit class string holds exactly the digits 0 to 9 |
| Crypto.ClassMembers | js/crypto.js:169-172 | each class string holds exactly its class, and no symbol is alphanumeric |
| Crypto.CharsetClasses | js/crypto.js:168-173 | a character of the set belongs to an enabled class, or every class is disabled and it is alphanumeric |
| Crypto.CharsetFallback | js/crypto.js:173 | with every class disabled the set is the 62 alphanumerics |
| Crypto.GeneratePassword | js/crypto.js:165-186 | the password has the requested length (16 by default, empty for a non-positive length); character i is `chars[random[i] % chars.length]` |
| Crypto.GeneratedPasswordClasses | js/crypto.js:165-186 | every generated character is in the set; with symbols off every character is alphanumeric |
| Crypto.InviteCharsClasses | js/crypto.js:211 | the invite alphabet has 36 characters, all upper-case letters or digits |
| Crypto.GenerateInviteCode | js/crypto.js:210-223 | 8 characters, each an upper-case letter or a digit, character i being `chars[random[i] % 36]` |
| Crypto.StrengthTests | js/crypto.js:192-199 | the score counts at most seven tests |
| Crypto.CheckPasswordStrength | js/crypto.js:191-205 | with at most 2 tests passed the rating is ("weak", 1, "Weak"); with 3 or 4, ("medium", 2, "Medium"); with 5, ("strong", 3, "Strong"); with 6 or 7, ("strong", 4, "Very Strong") |
| Crypto.Decrypt | js/crypto.js:153-160 | decrypting xors the stored text under `password + salt` and keeps its length in code units |
| Crypto.SaltedHash | js/crypto.js:72-92 | the salted hash is lower-case hex: the SHA-256 digest when it is available and does not throw, otherwise the 64-digit `simpleHash` |
| Crypto.VerifyPassword | js/crypto.js:95-110 | a password verifies only against a lower-case hex hash, 64 digits long when Web Crypto is absent |
| Crypto.StrengthGrowsWithAppend | js/crypto.js:191-205 | appending characters never lowers the strength |
| Crypto.LongMixedIsVeryStrong | js/crypto.js:191-205 | 16 or more code units drawn from all four classes rate "Very Strong" |
| Storage.LookupUser | js/storage.js:80-83 | a user is found exactly when one is stored under the lower-cased email, and it is that record |
| Storage.PutUser | js/storage.js:88-92 | the user is stored under its lower-cased email; every other key and record is unchanged |
| Storage.LookupAfterPut | js/storage.js:80-92 | after `saveUser`, `getUser` finds the user under any casing of its email, and other lookups are unchanged |
| Storage.PutUserKeepsUsersOk | js/storage.js:88-92 | saving a user keeps every user keyed by its lower-cased email |
| Storage.FindIndex | js/storage.js:143 | `findIndex` gives the first entry with the id, or -1 exactly when there is none |
| Storage.Upsert | js/storage.js:140-148 | when the id is present, only the first entry with it (the `findIndex` position) is replaced, and every other position keeps its entry, later duplicates included; otherwise the entry is appended |
| Storage.RemoveId | js/storage.js:161 | the filtered list holds exactly the entries without the id |
| Storage.RemoveIdAppend | js/storage.js:161 | filtering distributes over concatenation |
| Storage.RemoveAbsentId | js/storage.js:161 | removing an id that is not there changes nothing |
| Storage.RemoveIdKeepsUnique | js/storage.js:161 | removing keeps ids unique |
| Storage.UpsertKeepsUnique | js/storage.js:143-148 | an upsert keeps ids unique |
| Storage.DeleteUndoesAppend | js/storage.js:138-163 | deleting a newly saved entry restores the list |
| Storage.SavePasswordIn | js/storage.js:138-152 | the owner's key is present afterwards and its list holds the entry; every other owner's list is unchanged |
| Storage.DeletePasswordIn | js/storage.js:157-163 | the owner's key is present afterwards and its list holds exactly the old entries without the id; every other owner's list is unchanged |
| Storage.SavePasswordLocal | js/storage.js:138-152 | `savePassword` touches only the owner's list, which grows by one exactly when the id is new |
| Storage.DeletePasswordLocal | js/storage.js:157-163 | `deletePassword` touches only the owner's list, which loses exactly the entries with the id; a missing list becomes `[]` |
| Storage.PasswordOpsKeepPasswordsOk | js/storage.js:138-163 | saving and deleting keep ids unique in every list |
| Storage.WithTeamPassword | js/storage.js:224-231 | the team's list (`[]` when missing) is upserted: when the id is present only its first entry is replaced, otherwise the entry is appended; every other position keeps its entry and no other field changes |
| Storage.WithoutTeamPassword | js/storage.js:243 | the team's list loses exactly the entries with the id; no other field changes |
| Storage.PutTeamKeepsTeamsOk | js/storage.js:193-197 | saving a consistent team keeps the team map consistent |
| Storage.TeamPasswordOpsKeepTeamOk | js/storage.js:220-245 | team password saves and deletes keep the team consistent |
| Storage.Store.constructor | js/storage.js:17-25 | empty storage: every key is missing |
| Storage.Store.Init | js/storage.js:56-66 | each missing map is created empty, and the maps as read are unchanged |
| Storage.Store.GetUser | js/storage.js:80-83 | null exactly when no user is stored under the lower-cased email; otherwise that record |
| Storage.Store.SaveUser | js/storage.js:88-92 | the user is stored under its lower-cased email and found again by `getUser` |
| Storage.Store.GetUserPasswords | js/storage.js:130-133 | the list stored under the lower-cased email, or `[]` when there is none |
| Storage.Store.SavePassword | js/storage.js:138-152 | the owner's list is upserted and then holds the entry; nothing else changes |
| Storage.Store.DeletePassword | js/storage.js:157-163 | the owner's list is filtered, and no entry with the id remains |
| Storage.Store.GetTeam | js/storage.js:177-180 | null exactly when no team is stored under the id; otherwise that team |
| Storage.Store.GetTeamByInviteCode | js/storage.js:185-188 | a stored team carrying the code, or null exactly when no team carries it |
| Storage.Store.SaveTeam | js/storage.js:193-197 | the team is stored under its own id and found again by `getTeam` |
| Storage.Store.GetUserTeams | js/storage.js:202-207 | throws exactly when some team has no member list; otherwise exactly the teams with a member of that email, compared case-insensitively, each listed once per stored key |
| Storage.Store.GetTeamPasswords | js/storage.js:212-215 | the team's password list, or `[]` when the team or its list is missing |
| Storage.Store.SaveTeamPassword | js/storage.js:220-234 | false, and no change, exactly when the team is missing; otherwise the upserted team is saved under its id |
| Storage.Store.DeleteTeamPassword | js/storage.js:239-245 | false, and no change, exactly when the team or its list is missing; otherwise the filtered team is saved |
| Storage.Store.SetCurrentUser | js/storage.js:104-108 | the session user and the master key are set; the maps are untouched |
| Storage.Store.ClearSession | js/storage.js:120-123 | the session user and the master key are removed; the maps are untouched |
| App.AppendMissing | js/app.js:683-688 | the set-then-push loop computes the merged list |
| App.AppendMissingStep | js/app.js:684-688 | one turn of the inner loop, pushing the element or not, extends the filtered prefix by that element exactly when its key is new |
| App.MergePasswordsOverStep | js/app.js:679-689 | one more owner processed by the loop is one more owner merged |
| App.MergeTeamsOverStep | js/app.js:695-713 | one more team processed by the loop is one more team merged or inserted |
| App.MergeExistingTeam | js/app.js:697-709 | the loop body for a stored team computes the merged team |
| App.MergePasswordMaps | js/app.js:677-691 | the owner loop computes the merged personal password map |
| App.MergeTeamMaps | js/app.js:693-715 | the team loop computes the merged team map, or throws exactly when the merge fails |
| Merge.Merge | js/app.js:670-716 | the merge throws exactly when some team on both sides lacks a member list, and then leaves the team map as it was |
| Merge.MergeKeys | js/app.js:670-716 | the user and password maps gain exactly the incoming keys; when the merge does not throw, so does the team map |
| App.MergeDatabase | js/app.js:670-716 | the store afterwards, and whether the call threw, are those of the merge definition; the session is untouched |
| App.NormalizeCode | js/app.js:495 | the trimmed input upper-cased character by character; empty exactly when the input is all whitespace |
| App.NormalizeCodeSlice | js/app.js:495 | the code is a slice of the input, with only whitespace around it, upper-cased |
| App.Joined | js/app.js:509 | exactly one member is appended, with role "member"; the earlier members and the other fields are unchanged |
| App.JoinedIsMember | js/app.js:504-509 | after joining, the user is a member, so joining again is refused |
| App.JoinedKeepsTeamOk | js/app.js:504-510 | a non-member joining a consistent team keeps member emails unique |
| App.JoinTeam | js/app.js:491-510 | "invalid code" exactly when no team has the normalised code; "no member list" and "already a member" only for a team with that code lacking a list or holding the user; when some team has the code and every such team has a list without the user, the join succeeds and that team with the user appended is saved under its id; refusals change nothing |
| App.NewTeam | js/app.js:443-451 | the creator is the sole admin, there are no passwords yet, and the team is consistent |
| App.CreateTeam | js/app.js:432-453 | refused, with no change, exactly when the trimmed name is empty; otherwise a team is saved under its id with the trimmed name, the creator as sole admin, the given creation time and the invite code whose character i is `InviteChars[random[i] % 36]` |
| Auth.ValidateEmail | js/auth.js:70 | the email splits into three non-empty runs without whitespace or '@', the first two joined by '@' and the last two by '.' |
| Auth.ValidateEmailShape | js/auth.js:70 | the email pattern accepts exactly the strings with no whitespace, exactly one '@' and not at the front, and a '.' in the domain that is neither its first nor its last character |
| Auth.PatternHasShape | js/auth.js:70 | a string matching the email pattern has no whitespace, one '@' not at the front, and a dot inside the domain |
| Auth.ShapeHasPattern | js/auth.js:70 | a string of that shape matches the email pattern |
| Auth.ValidateEmailAccepts | js/auth.js:70 | "ann@example.org" is accepted |
| Auth.ValidateEmailRefusesUndottedDomain | js/auth.js:70 | "ann@localhost" is refused |
| Auth.RegisterCheck | js/auth.js:7-18 | each error is reported exactly when the earlier checks pass and its own fails, in the order: a missing field, an invalid email, a password under 8 code units, an existing account in any casing; otherwise the checks pass |
| Auth.NewUser | js/auth.js:26-35 | the saved record has the lower-cased email, the trimmed name, the hash and salt given, the creation time given, no teams and status "active"; its role is "admin" for the first account and "user" otherwise |
| Auth.SessionOf | js/auth.js:52-58 | the session profile copies the public fields; an empty role reads as "user", any other role is kept |
| Auth.Authenticate | js/auth.js:41-50 | login succeeds exactly for an existing, not disabled account whose password verifies; unknown accounts and wrong passwords get the same error; disabled accounts are refused before the password is checked |
| Auth.RegisteredUserCanLogIn | js/auth.js:20-38 | the account `register` saves logs in with its password under any casing of its email |
| Auth.SecondRegistrationRefused | js/auth.js:16-18 | once an account is saved, registering it again in any casing is refused |
| Auth.OnlyFirstUserIsAdmin | js/auth.js:23-33 | an account registered when others exist gets the role "user" |
| Auth.Login | js/auth.js:41-61 | the outcome is that of `Authenticate`; on success the session holds the profile and the password as master key, and `isAdmin` holds exactly for an admin role; on failure nothing changes |
| Auth.Register | js/auth.js:6-39 | a failed check is returned with no change; otherwise the new record is saved and the login that follows succeeds with its profile |
| Auth.IsLoggedIn | js/auth.js:64 | logged in means a session user and a master key are both stored |
| Auth.IsAdmin | js/auth.js:66-69 | admin means a session user whose role is "admin" |
| Auth.Logout | js/auth.js:63-69 | afterwards neither `isLoggedIn` nor `isAdmin` holds, and the stored maps are unchanged |

## Left out

- Transport encoding: `btoa(unescape(encodeURIComponent(...)))` and its inverse are not modelled. `xorEncrypt` returns, and `xorDecrypt` takes, the xor-ed code units. The "Decryption failed" error of a malformed base64 input is therefore not modelled.
- JSON: `JSON.stringify` and `JSON.parse` are not modelled. `encrypt` takes the JSON text and `decrypt` returns it, so "Decryption failed - invalid password" (a parse failure) is not modelled.
- `localStorage` failures are not modelled: a failed `set` (quota) and a corrupt value that `get` reads as null.
- The `Math.random` fallbacks of `generateSalt`, `generatePassword` and `generateInviteCode` are not modelled. The `crypto.getRandomValues` values are inputs.
- `generateId`, `new Date().toISOString()` and the salt bytes are parameters.
- SHA-256 and `TextEncoder` are not modelled. The digest is an uninterpreted function in `Crypto.Digest`, whose None result stands for a digest that throws.
- Storage.Store.GetTeamByInviteCode: the source returns the first matching team in `Object.values` order; the model may return any team with the code, because key order is not modelled.
- Storage.Store.GetUserTeams: the source returns the teams in `Object.values` order; the model returns them in some order, because key order is not modelled.
- A snapshot whose `passwords[email]` is null makes `for (const pwd of data.passwords[email])` throw (js/app.js:684). Snapshot password lists are sequences here, which cannot be null, so that throw is not modelled.
- Text.ToLower: only ASCII letters are case-mapped. JavaScript's full Unicode `toLowerCase` is not modelled. The same holds for Text.ToUpper, used on invite codes.
- `Auth.getCurrentUser()` returning null inside `handleCreateTeam` and `handleJoinTeam` is not modelled. These handlers only run for a logged-in user, whose profile is a parameter here.
- UI work is not modelled: toasts, modals, rendering, auto-save, clipboard, and the delayed invite dialog.
- `async` interleavings are not modelled. Each operation runs to completion.
- Behaviour the model keeps as the code has it:
  - A snapshot import is not atomic: users and passwords are written before the team loop can throw (js/app.js:671-715; `Merge.MergeFailureIsPartial`).
  - Missing top-level parts of a snapshot are skipped rather than rejected: each part is guarded by `if (data.users)`, `if (data.passwords)` and `if (data.teams)` (js/app.js:671-693).
  - `savePassword` replaces the whole stored entry (js/storage.js:143-148). The caller does not keep `createdAt` either: js/app.js:285-287 sets it only for a new entry, so an edited entry loses `createdAt`.
  - Errors are thrown exceptions (for example the `throw new Error` calls of js/auth.js:8-18, and the `TypeError` of `.members.map` on a team without members at js/app.js:697), modelled as `Err`/`Fail` values.
