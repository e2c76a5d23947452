# License server core, modelled in Dafny

This project models the backend of a small license server for a network installer. An
installer asks `POST /v1/auth/check` whether a license key may be used from a public IP. The
server answers from three tables: `licenses`, `allowed_ips` and `auth_logs`. It records every
decision in the audit log. Administrators manage licenses, their allowed IPs and CIDR ranges, and
the log through an API key. Each allowed IP is mirrored into an address list on a MikroTik router,
and a source-NAT rule sends that list out through a public address.

The model has one module per source file:

- `IpMatch` (with `Bits` and the examples in `IpMatchCases`) covers the address logic of
  `services/ipmatch.ts`: parsing, exact and CIDR matching, validation, and private-range
  classification.
- `ApiKey` covers the role middleware of `middleware/apikey.ts`.
- `Auth` covers the decision chain and audit record of `routes/auth.ts`.
- `IpsRoutes`, `LicensesRoutes` and `LogsRoutes` cover the admin handlers of `routes/ips.ts`,
  `routes/licenses.ts` and `routes/logs.ts`.
- `MikroTik` covers the router synchronisation of `services/mikrotik.ts`.
- `Types` holds the records of `types/index.ts`. `SqlParams` is the numbered-placeholder
  builder that the PATCH and log-query handlers share.
- `Db` is the class `Database`. It holds the three tables as sequences, with their key
  constraints. Each of its methods is one SQL statement that a handler issues.
- `Text`, `Seqs`, `Faults` and `Wrappers` are helpers.

The handlers and the router service are imperative, so they are methods on classes:

- `Db.Database`, `MikroTik.Router` (the device's address list and NAT table) and
  `MikroTik.Service` (the stored configuration and the waits taken between reconnects).
- Each method is proved against a pure outcome function: `AddOutcome`, `CreateOutcome`,
  `PatchOutcome` and so on. Lemmas about those functions state what the routes promise.
- The failures of the outside world come from fault scripts: one boolean per database
  statement, connection attempt or router command. A script that has run out means success.
- The wall clock is a parameter `now`. A generated UUID is a parameter `uuid`. Date parsing is a
  parameter `dateOf`.

## Model

| member | source | states |
|---|---|---|
| IpMatch.ParseAll | backend/src/services/ipmatch.ts:12 | a dotted or colon address parses exactly when every piece parses, and the parts are those pieces' values in order |
| IpMatch.ParseOctet | backend/src/services/ipmatch.ts:12 | an accepted IPv4 piece is a byte (below 256) |
| IpMatch.ParseGroup | backend/src/services/ipmatch.ts:12 | an accepted IPv6 piece is a 16-bit group |
| IpMatch.ParseIPv4 | backend/src/services/ipmatch.ts:12 | a parsed dotted quad is a well-formed IPv4 address: four octets, each below 256 |
| IpMatch.ParseIPv6 | backend/src/services/ipmatch.ts:12 | a parsed colon form is a well-formed IPv6 address of eight groups; `::` stands for the missing zero groups |
| IpMatch.Fill | backend/src/services/ipmatch.ts:12 | expanding `::` keeps the groups on its left as the prefix and those on its right as the suffix, with zeros between, eight groups in all |
| IpMatch.ParseAddress | backend/src/services/ipmatch.ts:12 | an accepted address is well formed, and a text holding `/` is never an address |
| IpMatch.ParseCidr | backend/src/services/ipmatch.ts:17 | an accepted range has a well-formed network address and a prefix length no longer than the family's width (32 or 128), and its text holds `/` |
| IpMatch.EntryAddress | backend/src/services/ipmatch.ts:47-58 | an allowed-IP entry, with or without `/`, yields a well-formed address when it is accepted |
| IpMatch.IpMatches | backend/src/services/ipmatch.ts:9-40 | a match needs both texts to parse and to be of the same family; every parse failure answers false |
| IpMatch.IsValidIpOrCidr | backend/src/services/ipmatch.ts:47-58 | an entry is valid exactly when it parses as an address (no `/`) or as a range (with `/`) |
| IpMatch.SpecialRanges | backend/src/services/ipmatch.ts:65-77 | every reserved block in the range table is a well-formed network with a name other than unicast |
| IpMatch.IsPrivateIp | backend/src/services/ipmatch.ts:65-77 | only a text that parses as an address can be private |
| IpMatch.TextRoundTrip | backend/src/services/ipmatch.ts:34 | parsing the canonical text of any well-formed address gives back that address |
| IpMatch.ToTextInjective | backend/src/services/ipmatch.ts:34 | two well-formed addresses have the same canonical text exactly when they are equal, so comparing texts compares addresses |
| IpMatch.InRangeIsTopBits | backend/src/services/ipmatch.ts:24 | the part-by-part range test agrees, in both directions, with "the first p bits of the two addresses are equal" |
| IpMatch.CidrMatchIsPrefix | backend/src/services/ipmatch.ts:15-24 | for a same-family address and range entry, a match holds exactly when the address's first prefix-length bits equal the network's |
| IpMatch.ExactMatchIsEquality | backend/src/services/ipmatch.ts:26-34 | for an entry without `/`, a match holds exactly when both texts parse to the same address |
| IpMatch.CidrValidity | backend/src/services/ipmatch.ts:49-50 | `t/d` is valid exactly when `t` is an address, `d` is a decimal with no further `/`, and `d` does not exceed the family's width |
| IpMatch.MatchesItself | backend/src/services/ipmatch.ts:9-40 | every address matches its own text, and matches the full-length range `/32` or `/128` on it |
| IpMatch.FirstRangeFindsAny | backend/src/services/ipmatch.ts:69-72 | the first-match range lookup finds a reserved block exactly when some block in the table contains the address |
| IpMatch.PrivateIffSpecial | backend/src/services/ipmatch.ts:65-77 | an IP is private exactly when it parses and lies in some reserved block |
| IpMatch.PrivateBlocksArePrivate | backend/src/services/ipmatch.ts:68-69 | every IPv4 address in 10/8, 127/8, 172.16/12 or 192.168/16 is classified as a range other than unicast |
| IpMatch.DocumentationBlocksArePrivate | backend/src/services/ipmatch.ts:68-69 | every IPv4 address in the documentation blocks 192.0.2/24, 198.51.100/24 or 203.0.113/24 is classified as reserved, not unicast |
| Bits.MatchPartsIsPrefix | backend/src/services/ipmatch.ts:24 | the part-wise shift comparison for a prefix length equals, in both directions, equality of that many leading bits of the two addresses |
| Bits.MatchPartsReflexive | backend/src/services/ipmatch.ts:24 | every address lies in every range whose network is that address |
| IpMatchCases.CompressedText | backend/src/services/ipmatch.ts:12 | any text `l::r` with at most seven groups in all parses to `l`, then zeros, then `r` |
| IpMatchCases.ExactV4Match | backend/src/services/ipmatch.test.ts:5-8 | `192.168.1.1` matches the entry `192.168.1.1` |
| IpMatchCases.ExactV4Mismatch | backend/src/services/ipmatch.test.ts:5-8 | `192.168.1.1` does not match the entry `192.168.1.2` |
| IpMatchCases.CidrV4Match | backend/src/services/ipmatch.test.ts:10-13 | `192.168.1.10` lies in `192.168.1.0/24` |
| IpMatchCases.CidrV4Mismatch | backend/src/services/ipmatch.test.ts:10-13 | `192.168.2.10` lies outside `192.168.1.0/24` |
| IpMatchCases.ExactV6Match | backend/src/services/ipmatch.test.ts:15-18 | `2001:db8::1` matches the entry `2001:db8::1` |
| IpMatchCases.ExactV6Mismatch | backend/src/services/ipmatch.test.ts:15-18 | `2001:db8::1` does not match the entry `2001:db8::2` |
| IpMatchCases.CidrV6Match | backend/src/services/ipmatch.test.ts:20-23 | `2001:db8::10` lies in `2001:db8::/32` |
| IpMatchCases.CidrV6Mismatch | backend/src/services/ipmatch.test.ts:20-23 | `2001:db9::10` lies outside `2001:db8::/32` |
| IpMatchCases.FamilyExamples | backend/src/services/ipmatch.test.ts:25-28 | `192.168.1.1` does not match the entry `2001:db8::1`, nor the reverse |
| IpMatchCases.InvalidExamples | backend/src/services/ipmatch.test.ts:30-33 | an unparsable request IP or entry answers false instead of failing |
| IpMatchCases.ValidAddressExamples | backend/src/services/ipmatch.test.ts:37-41 | `192.168.1.1`, `10.0.0.1`, `2001:db8::1` and `::1` are valid entries |
| IpMatchCases.OctetTooLarge | backend/src/services/ipmatch.test.ts:37-41 | `256.1.1.1` is rejected |
| IpMatchCases.ValidV4CidrExamples | backend/src/services/ipmatch.test.ts:43-47 | `192.168.1.0/24` and `10.0.0.0/8` are valid entries |
| IpMatchCases.OverlongV4Prefix | backend/src/services/ipmatch.test.ts:43-47 | `192.168.1.0/33` is rejected |
| IpMatchCases.NonHexGroup | backend/src/services/ipmatch.test.ts:49-53 | `gggg::1` is rejected |
| IpMatchCases.ValidV6CidrExamples | backend/src/services/ipmatch.test.ts:55-59 | `2001:db8::/32` and `::/0` are valid entries |
| IpMatchCases.OverlongV6Prefix | backend/src/services/ipmatch.test.ts:55-59 | `2001:db8::/129` is rejected |
| IpMatchCases.EmptyRejected | backend/src/services/ipmatch.test.ts:61-65 | the empty text is rejected |
| IpMatchCases.WordRejected | backend/src/services/ipmatch.test.ts:61-65 | `invalid` is rejected |
| IpMatchCases.ThreePartsRejected | backend/src/services/ipmatch.test.ts:61-65 | the three-part `192.168.1` is rejected |
| IpMatchCases.PrivateExamples | backend/src/services/ipmatch.test.ts:69-74 | `192.168.1.1`, `10.0.0.1`, `172.16.0.1` and `127.0.0.1` are private |
| IpMatchCases.PublicEight | backend/src/services/ipmatch.test.ts:76-79 | `8.8.8.8` is not private |
| IpMatchCases.PublicOne | backend/src/services/ipmatch.test.ts:76-79 | `1.1.1.1` is not private |
| IpMatchCases.InvalidIsNotPrivate | backend/src/services/ipmatch.test.ts:81-83 | an unparsable text is not private |
| ApiKey.ResolveRole | backend/src/middleware/apikey.ts:22-28 | the key is admin exactly when it equals a configured, non-empty admin key; it is installer exactly when it equals a non-empty installer key and is not admin; otherwise it has no role |
| ApiKey.RequireApiKey | backend/src/middleware/apikey.ts:14-37 | a missing or empty header gives 401 and nothing else does; the request proceeds exactly when the key resolves to a role in the route's list, with that role attached |
| ApiKey.AdminGateIff | backend/src/middleware/apikey.ts:42 | admin routes admit exactly the configured non-empty admin key, and never with the installer role |
| ApiKey.InstallerGateIff | backend/src/middleware/apikey.ts:47 | installer routes admit exactly the non-empty admin key or the non-empty installer key |
| ApiKey.UnconfiguredRefusesAll | backend/src/middleware/apikey.ts:4-5 | with both keys unset, no request passes any gate |
| ApiKey.InstallerKeyOnAdminRoute | backend/src/middleware/apikey.ts:30-32 | a distinct installer key on an admin route is refused with 403 |
| ApiKey.SharedKeyIsAdmin | backend/src/middleware/apikey.ts:24-28 | when one key is configured for both roles, it resolves to admin |
| ApiKey.MoreRolesOnlyOpen | backend/src/middleware/apikey.ts:30 | widening a route's role list never changes the outcome for a request that already passed |
| Auth.AnyMatch | backend/src/routes/auth.ts:86 | the IP is allowed exactly when some allowed-IP row's entry matches it |
| Auth.Standing | backend/src/routes/auth.ts:51-69 | a license passes the status checks exactly when it is active and not past its expiry; otherwise the refusal is "inactive" or "expired" |
| Auth.Lookups | backend/src/routes/auth.ts:35-75 | the allowed-IP query runs (two lookups) exactly when the license was found, is active and has not expired; otherwise only one lookup runs |
| Auth.MachineOf | backend/src/routes/auth.ts:30 | the logged machine identifier is the request's when it is a non-empty string, and null otherwise |
| Auth.ReplyOf | backend/src/routes/auth.ts:42-101 | the reply carries `allowed: true` exactly when its status is 200 |
| Auth.AllowedIff | backend/src/routes/auth.ts:35-101 | the decision is "allowed" exactly when the key names a license that is active and unexpired, and some of its allowed entries matches the public IP |
| Auth.InactiveBeforeExpired | backend/src/routes/auth.ts:51-57 | an inactive license is reported inactive, whatever its expiry |
| Auth.NoExpiryIsTimeless | backend/src/routes/auth.ts:60 | a license without an expiry gets the same decision at every moment |
| Auth.ExpiryIsStrict | backend/src/routes/auth.ts:62 | at its expiry instant a license is not yet expired, and one moment later it is |
| Auth.TimeOnlyRevokes | backend/src/routes/auth.ts:59-69 | a grant at some time implies a grant at every earlier time, and an expiry at some time implies expiry at every later time |
| Auth.MoreEntriesOnlyGrant | backend/src/routes/auth.ts:72-94 | adding allowed-IP rows can turn a refusal into a grant but never a grant into a refusal |
| Auth.CodeInjective | backend/src/routes/auth.ts:41-97 | distinct decisions are written to the audit log under distinct result codes |
| Auth.StatusIffAllowed | backend/src/routes/auth.ts:42-101 | the status is 200 for "allowed" and 403 for every refusal |
| Auth.VerdictAllowedIff | backend/src/routes/auth.ts:35-101 | against the stored tables, the check grants exactly when the first license with that key is active, unexpired, and owns an allowed-IP row matching the IP |
| Auth.GrantIsAudited | backend/src/routes/auth.ts:97-98 | the reply is 200 exactly when the logged result is `allowed` |
| Auth.Lookup | backend/src/routes/auth.ts:34-94 | the lookups leave the tables unchanged; a failed query aborts with no decision, and otherwise the decision is the one computed from the stored tables |
| Auth.Check | backend/src/routes/auth.ts:14-110 | a missing key or IP gives 400 and writes nothing; otherwise exactly one audit row with the decision's code is appended and the reply follows the decision; any failed statement gives 500 with no audit row; licenses and allowed IPs never change |
| Db.Apply | backend/src/routes/licenses.ts:97-114 | an update keeps the row's id, key and creation time, and changes exactly the fields it names |
| Db.UpdateWhere | backend/src/routes/licenses.ts:121-124 | the update rewrites the rows with that id and leaves every other row as it was, in place |
| Db.Database.constructor | backend/src/services/db.ts:18-29 | the class stands in for the PostgreSQL database behind `query`: a fresh one has empty tables, identities starting at 1, and the given fault script |
| Db.Database.Step | backend/src/services/db.ts:18-29 | each `query` call takes one entry of the fault script; a failing entry is the error `query` logs and rethrows; the step changes no table by itself |
| Db.Database.FindLicenseByKey | backend/src/routes/auth.ts:35-38 | answers the licenses with that key, or fails, and changes nothing |
| Db.Database.FindLicenseById | backend/src/routes/licenses.ts:63 | answers the licenses with that id, or fails, and changes nothing |
| Db.Database.FindIpsOfLicense | backend/src/routes/auth.ts:72-75 | answers that license's allowed-IP rows in table order, or fails, and changes nothing |
| Db.Database.FindIp | backend/src/routes/ips.ts:72-75 | answers the allowed-IP rows with that id under that license, or fails, and changes nothing |
| Db.Database.InsertAuthLog | backend/src/routes/auth.ts:27-32 | on success, exactly one audit row is appended with the next identity, and no other table changes |
| Db.Database.InsertAllowedIp | backend/src/routes/ips.ts:36-39 | a duplicate (license, entry) pair fails with unique_violation and changes nothing; otherwise one row is appended with the next identity |
| Db.Database.DeleteIp | backend/src/routes/ips.ts:84 | on success, exactly the allowed-IP rows with that id are removed |
| Db.Database.InsertLicense | backend/src/routes/licenses.ts:23-26 | a duplicate key fails with unique_violation and changes nothing; otherwise one active license row is appended with the next identity |
| Db.Database.UpdateLicense | backend/src/routes/licenses.ts:121-124 | on success, the rows with that id are updated and returned, and nothing else changes |
| Db.Database.DeleteLicense | backend/src/routes/licenses.ts:145 | on success, the rows with that id are returned and removed from the table |
| IpsRoutes.NoteOf | backend/src/routes/ips.ts:38 | the stored note is the request's note when it is non-empty, and null otherwise |
| IpsRoutes.AddOutcome | backend/src/routes/ips.ts:14-61 | 400 exactly when the entry is missing or not a valid IP or CIDR; 404 exactly when it is valid and the license does not exist; a 201 returns the new row with the next id, the entry and the note |
| IpsRoutes.AddIp | backend/src/routes/ips.ts:14-61 | the reply is the outcome computed from the old state; only a 201 adds a row, only that row; the router gains at most the tagged entry for it; a router failure never changes the reply; every opened connection is closed |
| IpsRoutes.RemoveOutcome | backend/src/routes/ips.ts:67-98 | 404 exactly when the lookup succeeds and no row has that id under that license |
| IpsRoutes.RemoveIp | backend/src/routes/ips.ts:67-98 | a 200 removes exactly that row from the table, and removes from the router only entries with that list, address and license tag; every other outcome leaves table and router as they were |
| IpsRoutes.AddThenRemoveRow | backend/src/routes/ips.ts:36-39 | deleting the row just inserted restores the allowed-IP table |
| LicensesRoutes.KeyOf | backend/src/routes/licenses.ts:18 | the supplied key is used when it is non-empty; otherwise a generated UUID is used |
| LicensesRoutes.NameOf | backend/src/routes/licenses.ts:25 | an empty or missing name is stored as null |
| LicensesRoutes.CreateOutcome | backend/src/routes/licenses.ts:13-39 | 409 exactly when the key is already taken; 201 exactly when the insert succeeds, returning the new active row; 500 otherwise |
| LicensesRoutes.Create | backend/src/routes/licenses.ts:13-39 | the reply is the outcome computed from the old state; a 201 appends exactly the returned row, and any other reply changes no table |
| LicensesRoutes.GetOutcome | backend/src/routes/licenses.ts:59-85 | 404 exactly when no license has that id; a 200 returns a stored license with that id together with all its allowed-IP rows |
| LicensesRoutes.Get | backend/src/routes/licenses.ts:59-85 | the reply is the outcome computed from the state, and no table changes |
| LicensesRoutes.ExpiryOf | backend/src/routes/licenses.ts:113 | a non-empty expiry text sets a date, and an empty or null one clears it |
| LicensesRoutes.Assignments | backend/src/routes/licenses.ts:97-114 | at most three assignments, and none exactly when the body names none of name, active and expires_at |
| LicensesRoutes.BuildAssignments | backend/src/routes/licenses.ts:97-114 | the built clauses are numbered `$1`, `$2`, … in order, each value sits at its placeholder's position, and the counter stands one past the last |
| LicensesRoutes.BuildUpdate | backend/src/routes/licenses.ts:116-124 | no statement when no field is given; otherwise the UPDATE sets the numbered clauses and takes the id as the last placeholder |
| LicensesRoutes.PatchOutcome | backend/src/routes/licenses.ts:91-135 | 400 exactly when no field is given; 404 exactly when fields are given, the update runs and no license has that id |
| LicensesRoutes.Patch | backend/src/routes/licenses.ts:91-135 | the reply is the outcome computed from the old state; a 200 or 404 leaves the table updated by the named fields; a 400 or 500 leaves it unchanged |
| LicensesRoutes.UpdateKeepsIds | backend/src/routes/licenses.ts:126-128 | an update finds a row with that id exactly when one existed before, so 404 means the id was absent |
| LicensesRoutes.UpdateIdempotent | backend/src/routes/licenses.ts:121-124 | applying the same PATCH twice leaves the same table as applying it once |
| LicensesRoutes.UpdatedRow | backend/src/routes/licenses.ts:101-114 | the updated row has the given name and active flag, and the parsed expiry (or null), each only when named; every other field is kept |
| LicensesRoutes.DeleteOutcome | backend/src/routes/licenses.ts:141-156 | 404 exactly when the statement succeeds and no license had that id |
| LicensesRoutes.Delete | backend/src/routes/licenses.ts:141-156 | unless the statement fails, every license row with that id is removed; the other tables are untouched |
| LicensesRoutes.CreateThenGet | backend/src/routes/licenses.ts:23-28 | a freshly created license is the only row found under its new id |
| LicensesRoutes.DeleteThenGet | backend/src/routes/licenses.ts:141-149 | after a delete, reading the same id gives 404 |
| LogsRoutes.TrimStart | backend/src/routes/logs.ts:13-14 | integer parsing skips exactly the leading whitespace |
| LogsRoutes.DigitPrefix | backend/src/routes/logs.ts:13-14 | integer parsing reads the longest run of leading digits and stops at the first non-digit |
| LogsRoutes.ParseIntFormat | backend/src/routes/logs.ts:13-14 | a decimal followed by text that does not extend the number parses to that number |
| LogsRoutes.ParseIntNegative | backend/src/routes/logs.ts:13-14 | a minus sign before a decimal gives the negated number |
| LogsRoutes.Page | backend/src/routes/logs.ts:13 | the page is never 0 |
| LogsRoutes.PerPage | backend/src/routes/logs.ts:14 | the page size is never 0 and never above 100 |
| LogsRoutes.PagingDefaults | backend/src/routes/logs.ts:13-14 | without parameters, the page is 1 and the page size 50 |
| LogsRoutes.PagingReads | backend/src/routes/logs.ts:13-14 | a parsed value 0 falls back to the default, and the page size is capped at 100 |
| LogsRoutes.DecimalPaging | backend/src/routes/logs.ts:13-14 | for a decimal parameter, the page is that number (1 for 0), and the page size is that number capped at 100 (50 for 0) |
| LogsRoutes.NegativePageSize | backend/src/routes/logs.ts:14 | a negative page size passes through unchanged and makes the offset of page 2 negative |
| LogsRoutes.OffsetSteps | backend/src/routes/logs.ts:20 | page 1 starts at offset 0, and each further page starts one page size later |
| LogsRoutes.TotalPagesIsCeiling | backend/src/routes/logs.ts:69 | the page count is the ceiling of total divided by page size |
| LogsRoutes.TotalPagesHoldAll | backend/src/routes/logs.ts:69 | for a positive page size, the pages hold every row and the last page is not empty |
| LogsRoutes.Active | backend/src/routes/logs.ts:23-45 | at most four filter conditions |
| LogsRoutes.BuildConditions | backend/src/routes/logs.ts:23-45 | the conditions are numbered `$1`, `$2`, … in order, each value sits at its placeholder's position, and the counter stands one past the last |
| LogsRoutes.WhereClause | backend/src/routes/logs.ts:47 | no conditions give an empty clause; otherwise the clause is WHERE and the conditions joined by AND |
| LogsRoutes.BuildQueries | backend/src/routes/logs.ts:13-61 | the count query gets the filter values; the page query gets the same values plus page size and offset, bound to the next two placeholders |
| LogsRoutes.NoFilters | backend/src/routes/logs.ts:27-47 | the WHERE clause is empty exactly when no filter parameter is a non-empty string |
| LogsRoutes.FilterOrder | backend/src/routes/logs.ts:27-45 | one condition per non-empty filter; the result filter comes first and the end date last |
| LogsRoutes.Tally | backend/src/routes/logs.ts:98-101 | the statistics map has exactly the result codes that occur in the rows |
| LogsRoutes.LastRowWins | backend/src/routes/logs.ts:98-101 | a code's count is the count of the last row carrying that code |
| SqlParams.Placeholder | backend/src/routes/licenses.ts:102 | a placeholder is `$` followed by its number |
| SqlParams.PlaceholderInjective | backend/src/routes/logs.ts:28 | distinct numbers give distinct placeholders |
| SqlParams.NumberingMatchesValues | backend/src/routes/logs.ts:23-45 | the k-th clause carries placeholder k+1, and the k-th bound value is that clause's value |
| SqlParams.PushWhen | backend/src/routes/licenses.ts:101-104 | a conditional push extends clauses, values and counter in step, keeping their numbering consistent |
| MikroTik.Tag | backend/src/services/mikrotik.ts:106 | an entry's comment is `License:` followed by the license id |
| MikroTik.TagInjective | backend/src/services/mikrotik.ts:137 | distinct licenses get distinct comments, so a removal never touches another license's entries |
| MikroTik.Backoff | backend/src/services/mikrotik.ts:29 | the wait after attempt i is 1000·i milliseconds |
| MikroTik.BackoffTotal | backend/src/services/mikrotik.ts:10-33 | m waits add up to 500·m·(m+1) milliseconds |
| MikroTik.RemovalSpares | backend/src/services/mikrotik.ts:140-145 | removing a set of entries leaves every entry outside that set as it was |
| MikroTik.RemovalOfAll | backend/src/services/mikrotik.ts:178-182 | removing every printed entry leaves exactly the entries the print did not select |
| MikroTik.RemoveOneMore | backend/src/services/mikrotik.ts:140-145 | removing one more printed entry by its id extends the removal by exactly that entry |
| MikroTik.SyncedMembers | backend/src/services/mikrotik.ts:173-191 | after clearing the list and adding the items, the list holds exactly the items' addresses and tags, in order |
| MikroTik.SyncSpares | backend/src/services/mikrotik.ts:173-191 | a sync never touches entries of other lists |
| MikroTik.AddThenRemove | backend/src/services/mikrotik.ts:103-145 | adding an entry and removing its (list, address, tag) leaves the other entries exactly as they were |
| MikroTik.Router.constructor | backend/src/services/mikrotik.ts:13-19 | a new router has empty tables and the given fault scripts |
| MikroTik.Router.Connect | backend/src/services/mikrotik.ts:21 | a connection attempt succeeds exactly when the script allows it, and changes no table |
| MikroTik.Router.Close | backend/src/services/mikrotik.ts:199 | closing counts one close and changes nothing else |
| MikroTik.Router.PrintEntries | backend/src/services/mikrotik.ts:134-138 | a print answers the matching entries in order, or fails, and changes no table |
| MikroTik.Router.PrintNat | backend/src/services/mikrotik.ts:57-61 | a NAT print answers the rules for that chain, list and interface, or fails |
| MikroTik.Router.AddNat | backend/src/services/mikrotik.ts:65-72 | a successful add appends the rule, and a failed one changes nothing |
| MikroTik.Router.AddEntry | backend/src/services/mikrotik.ts:103-107 | a successful add appends one entry with a fresh id, and a failed one changes nothing |
| MikroTik.Router.RemoveEntry | backend/src/services/mikrotik.ts:141-143 | a successful remove drops exactly the entry with that id |
| MikroTik.RemoveEach | backend/src/services/mikrotik.ts:140-145 | the loop removes the printed entries in order until one command fails, and succeeds when none fails |
| MikroTik.AddEach | backend/src/services/mikrotik.ts:185-191 | the loop appends one tagged entry per item in order until one command fails, and succeeds when none fails |
| MikroTik.ClearList | backend/src/services/mikrotik.ts:173-182 | on success the list is emptied; entries of other lists are never touched |
| MikroTik.Service.constructor | backend/src/services/mikrotik.ts:4 | before initialisation there is no configuration, so synchronisation is off |
| MikroTik.Service.Init | backend/src/services/mikrotik.ts:6-8 | initialisation stores the configuration |
| MikroTik.Service.GetConnection | backend/src/services/mikrotik.ts:10-33 | the connection succeeds exactly when one of the first `retries` attempts does; it stops at the first success; it waits 1000·i ms after each failed attempt i except the last; one connection is opened on success |
| MikroTik.Service.EnsureAddressList | backend/src/services/mikrotik.ts:38-50 | the check issues one print and never changes the router or fails the caller |
| MikroTik.Service.EnsureNatRule | backend/src/services/mikrotik.ts:55-81 | an existing rule is left alone; a missing one is added once; success means a serving rule is present; a failed command is reported |
| MikroTik.Service.AddIp | backend/src/services/mikrotik.ts:86-118 | disabled sync changes nothing; otherwise success means the tagged entry was appended and a NAT rule is present, failure leaves the entries unchanged; when no connection is obtained it returns false with entries, NAT rules and command script unchanged, after waiting the backoff delays of the failed attempts; a connection opened is always closed |
| MikroTik.Service.AddTagged | backend/src/services/mikrotik.ts:97-107 | the commands after connecting succeed exactly when all of them pass; only then is the tagged entry appended |
| MikroTik.Service.RemoveIp | backend/src/services/mikrotik.ts:123-154 | disabled sync changes nothing; otherwise only entries with that list, address and tag can disappear, all of them on success, and nothing is added; when no connection is obtained it returns false with entries, NAT rules and command script unchanged, after waiting the backoff delays of the failed attempts; a connection opened is always closed |
| MikroTik.Service.RemoveTagged | backend/src/services/mikrotik.ts:134-145 | the print-and-remove pass drops only matching entries, all of them when no command fails |
| MikroTik.Service.SyncAll | backend/src/services/mikrotik.ts:159-202 | disabled sync changes nothing; otherwise success leaves the list holding exactly the given items; other lists are never touched; when no connection is obtained it returns false with entries, NAT rules and command script unchanged, after waiting the backoff delays of the failed attempts; a connection opened is always closed |
| MikroTik.Service.Resync | backend/src/services/mikrotik.ts:170-191 | after connecting, success means a NAT rule is present and the list equals the items; other lists are untouched |

## Left out

- The address forms the IP library accepts beyond dotted quads and colon groups are not modelled: octal, hexadecimal and 32-bit integer IPv4 forms, IPv4 tails in IPv6 and zone ids. The two-part and three-part IPv4 forms are rejected, as the repository's tests expect.
- IpMatch.ParseAddress: rejects two IPv6 forms the IP library accepts. The first is a `::` that stands for no group at all, as in `1:2:3:4::5:6:7:8` or `1:2:3:4:5:6:7:8::`. The second is a group written with more than four hex digits whose value still fits in 16 bits, as in `00001::1` (`ParseGroup` requires at most four digits). Both are rejected here, following section 2.2 of RFC 4291. An allow-list entry or client address in those forms matches nothing.
- IpMatch.SpecialRanges: holds the range table the 1.x and 2.x releases of the IP library share. For IPv4 that is unspecified, broadcast, multicast, link-local, loopback, carrier-grade NAT, the three private blocks, and the reserved blocks 192.0.0/24, 192.0.2/24, 192.88.99/24, 198.51.100/24, 203.0.113/24 and 240/4. For IPv6 it is unspecified, link-local, multicast, loopback, unique-local, IPv4-mapped, RFC 6145, RFC 6052, 6to4, Teredo and the documentation prefix 2001:db8::/32. Later releases add more blocks: 198.18.0.0/15 for IPv4, and for IPv6 the discard prefix 100::/64, 2001::/23, the benchmarking, AMT, AS112 and ORCHID blocks, and others. Which release the repository installs is not part of this model.
- IpMatch.IsPrivateIp: an address in one of the blocks only later releases of the IP library list (such as 198.18.0.0/15 or 100::/64) is classified as unicast here, and so as not private.
- IpMatch.ToTextInjective: the canonical IPv6 text is the eight lower-case groups without `::`. The IP library prints the compact form of RFC 5952 section 4. Both are one-to-one, so exact matching compares the same thing.
- LogsRoutes.TrimStart: treats only the ASCII whitespace characters as blanks, not the other Unicode spaces JavaScript's `parseInt` skips.
- LogsRoutes.PagingReads: the parsed number is unbounded. JavaScript's float rounding of very long digit strings is not modelled.
- `new Date(...)` is the parameter `dateOf`, and timestamps are integers. An unparsable date text (JavaScript's invalid date) is not modelled.
- Creating a license takes its expiry as an already-parsed time.
- The SQL engine is not modelled; each statement is a `Db.Database` method. `ORDER BY created_at DESC` and row order within a result are not modelled; rows come back in table order.
- The count query's `parseInt` is not modelled.
- The 24-hour window of the stats query is not modelled; `LogsRoutes.Tally` takes the grouped rows as given.
- The database schema (migrations) is not part of this model. The unique constraints on the license key and on the pair (license, entry), and the default `active = true`, are built into `Db`.
- LicensesRoutes.PatchOutcome: a body holding `active: null` is not modelled. The route binds that null to the `active` column, and what the database then does depends on the column's NULL constraint, which is not part of this model. `PatchRequest.active` is absent or a boolean.
- Db.Database.DeleteLicense: removes only the license row; the cascade of its allowed IPs is not modelled.
- Connection pooling and concurrent requests are not modelled; every handler runs alone.
- The rate limiter, the installer route, the express wiring, console logging, the seed and migrate scripts, the frontend and the Go installer are not part of this model.
- The list handlers `GET /v1/licenses/:licenseId/ips` (backend/src/routes/ips.ts:104-118) and `GET /v1/licenses` (backend/src/routes/licenses.ts:45-53) are not modelled; each is a single read with ordering only.
- Path ids are taken as parsed natural numbers; a non-numeric id, which fails in the database, is not modelled.
- The UUID generator is the parameter `uuid`; the uniqueness of generated keys is not modelled.
- The `raw_request` column holds the request record itself, not its JSON text.
- Timers and real sleeping are not modelled: `MikroTik.Service` records the waits it would sleep, in milliseconds, in `delays`.
- The RouterOS API client is modelled as `MikroTik.Router`: an address list and a NAT table with fault scripts. Connection timeouts and the protocol itself are not modelled.
- Auth.Check: follows the code where it differs from the documented intent. The audit insert is awaited inside the same `try`, so a failed audit insert turns the decision into a 500 reply.
- Auth.Check: the `allowed_ips` query runs only for a found, active, unexpired license. An empty list of rows gives "no-allowed-ips", which the model keeps distinct from "denied".
