# Trusted-peer table of the permissions module

A Dafny model of the trusted-peer table of the SIP proxy's permissions module
(`modules/permissions/hash.c`). The table is a fixed array of `PERM_HASH_SIZE`
(128) buckets. Each bucket is a chain of trust entries: source address, transport
protocol (or the wildcard), an optional regular-expression pattern for the From
URI, and an optional tag. A loader inserts rows one at a time; each request is
looked up by source address, transport and From URI; on reload the table is
emptied in place; a diagnostic dump lists every entry.

- `wrappers.dfy`: `Option`, used where the C code uses NULL for "absent".
- `trusted_spec.dfy` (module `TrustedSpec`): entries and the functions that say
  what insert, lookup, empty and dump compute on a table given as a sequence of
  bucket chains, with the lemmas about them.
- `hash.dfy` (module `PermHash`): class `TrustedTable`, which holds the bucket
  array (`array<seq<Entry>>`) and updates it in place the way `hash.c` does.
  Every method is proved against the functions of `TrustedSpec`.

Inputs that come from outside the file are parameters of the model:
- `core_hash` is a function-valued field of the table; `perm_hash` reduces it modulo 128.
- POSIX `regcomp`/`regexec` are the two function fields of `Regex`: whether a pattern compiles, and whether it matches a text.
- The tag AVP configuration and `add_avp` are `TagSink`: whether `tag_avp.n` is non-zero, and whether `add_avp` accepts a value.
- Each `shm_malloc` in insert is a flag of `Alloc`, which says whether that allocation succeeds.
- The request's source address, its transport and its From URI are plain arguments. An unparsable From header is `None`.

`PERM_HASH_SIZE` = 128 and `MAX_URI_SIZE` = 1024 are the values of the
surrounding code base; `hash.h` and the core configuration header are not part
of this model.

Points of the C code that the model keeps:
- The entry is allocated before the protocol token is examined, so a `"none"` row returns -1 (not 1) when that first allocation fails.
- Lookup hands `regexec` the From URI up to its first NUL byte (`CText`).
- An entry whose tag is present but empty is forwarded on a match, yet printed as `NULL`.
- The bucket is chosen from the address as written, while addresses are compared ignoring case. So an entry whose address differs from the request's only in letter case is found only if both spellings hash to the same bucket (`InsertInvisible`, `OnlyOwnBucketFound`).

## Model

| member | source | states |
|---|---|---|
| `TrustedSpec.ParseProto` | modules/permissions/hash.c:119-136 | `"none"` is the skip sentinel and nothing else is; any token outside `any, udp, tcp, tls, sctp, none` is unknown; every transport result is named by exactly its token |
| `TrustedSpec.TokenRoundTrip` | modules/permissions/hash.c:119-128 | `any`, `udp`, `tcp`, `tls`, `sctp` map to the wildcard, UDP, TCP, TLS and SCTP: each protocol's token parses back to it |
| `TrustedSpec.SameAddressIsCaseFolding` | modules/permissions/hash.c:215-216 | the equal-length `strncasecmp` address test holds exactly when the ASCII lower-cased addresses are equal |
| `TrustedSpec.CText` | modules/permissions/hash.c:211-212 | the text `regexec` sees is the longest NUL-free prefix of the URI |
| `TrustedSpec.ScanChain` | modules/permissions/hash.c:214-231 | a hit is an entry of the chain that matches the request; a regex error comes from a candidate whose pattern does not compile |
| `TrustedSpec.ScanChainAt` | modules/permissions/hash.c:214-231 | the first entry at which the scan stops decides the result: a hit on that entry, or a regex error; later entries play no part |
| `TrustedSpec.ScanChainMiss` | modules/permissions/hash.c:214-231 | the scan finds nothing if and only if no entry of the chain matches or has a non-compiling pattern as a candidate |
| `TrustedSpec.Found` | modules/permissions/hash.c:232-241 | the tag is forwarded only when the tag AVP is configured and the entry has a tag; a rejected forward is a failure, otherwise the match succeeds |
| `TrustedSpec.MatchChain` | modules/permissions/hash.c:205-241 | an unparsable From header and a URI longer than `MAX_URI_SIZE` are rejected before the scan; success implies a matching entry in the chain |
| `TrustedSpec.PermHash` | modules/permissions/hash.c:33 | every address selects a bucket below `PERM_HASH_SIZE` |
| `TrustedSpec.Lookup` | modules/permissions/hash.c:205-231 | a lookup against the whole table: unparsable From and oversize URI are rejected first; success implies a matching entry in bucket `perm_hash(src_ip)` of the request |
| `TrustedSpec.OnlyOwnBucketFound` | modules/permissions/hash.c:214 | in a table where every entry sits in its address's bucket, a lookup only finds entries whose address hashes like the request's |
| `TrustedSpec.InsertOutcome` | modules/permissions/hash.c:112-179 | skipped exactly for `"none"` after the entry allocation; unknown protocol exactly for an unknown token; inserted exactly when the token is a transport and every needed allocation succeeds, and then the entry holds the row's address, protocol, pattern and tag |
| `TrustedSpec.AfterInsert` | modules/permissions/hash.c:181-183 | linking in: an inserted entry becomes the head of its address's bucket with the old chain behind it, every other bucket is unchanged, and a skipped or failed insert leaves the table as it was |
| `TrustedSpec.InsertFrame` | modules/permissions/hash.c:181-185 | an insert changes only bucket `perm_hash(src_ip)`, where the new entry becomes the head and the old chain follows unchanged; a skipped or failed insert changes nothing; the bucket count stays the same and entries stay in their own bucket |
| `TrustedSpec.InsertThenLookup` | modules/permissions/hash.c:182-218 | right after an insert, a lookup that the new entry matches finds that entry, whatever the bucket held before |
| `TrustedSpec.NewHeadDecides` | modules/permissions/hash.c:182-218 | an entry linked in as the head of the request's bucket is found by every lookup it matches |
| `TrustedSpec.InsertNoPatternIsFound` | modules/permissions/hash.c:215-218 | an entry without a pattern is found for its address and any URI, over every protocol when inserted with `any`, and over its own protocol otherwise |
| `TrustedSpec.LaterInsertWins` | modules/permissions/hash.c:182-183 | of two rows inserted for the same address, the later-inserted one is found whenever it matches the request, whatever the earlier one would do |
| `TrustedSpec.InsertInvisible` | modules/permissions/hash.c:214-217 | an inserted entry that the request's bucket does not hold, or that does not stop the scan, leaves every lookup's answer unchanged |
| `TrustedSpec.SpecificProtocolInvisible` | modules/permissions/hash.c:217 | a row for one specific transport never changes lookups over another transport |
| `TrustedSpec.BadPatternStopsScan` | modules/permissions/hash.c:219-222 | a candidate whose pattern does not compile ends the lookup with an error even when an older entry would match |
| `TrustedSpec.Emptied` | modules/permissions/hash.c:274-285 | the table after emptying has the same bucket count and every bucket empty |
| `TrustedSpec.EmptiedIdempotent` | modules/permissions/hash.c:274-285 | emptying keeps the bucket count, leaves every bucket empty, and emptying twice equals emptying once |
| `TrustedSpec.LookupAfterEmpty` | modules/permissions/hash.c:284 | after emptying, every lookup that reaches the scan finds no match |
| `TrustedSpec.LineOf` | modules/permissions/hash.c:256-258 | the printed line carries the bucket, the address and a protocol code 0-4; the pattern prints as `NULL` exactly when it is absent or is the text `NULL`, the tag exactly when it is absent, empty or the text `NULL`; any other printed value is the entry's own |
| `TrustedSpec.DumpUpToLength` | modules/permissions/hash.c:253-261 | the first n buckets print exactly one line per entry they hold |
| `TrustedSpec.DumpUpToSound` | modules/permissions/hash.c:253-261 | every printed line is the line of one entry, at that entry's position: after the earlier buckets' lines and the entries before it in its chain |
| `TrustedSpec.DumpUpToOrdered` | modules/permissions/hash.c:253-261 | the lines of the first n buckets name buckets below n, in non-decreasing bucket order |
| `TrustedSpec.DumpUpToComplete` | modules/permissions/hash.c:253-261 | entry k of bucket i is printed right after the earlier buckets' lines and the k entries before it in its chain |
| `TrustedSpec.DumpIsComplete` | modules/permissions/hash.c:253-261 | the dump has exactly one line per entry of the table, every line is some entry's line, every entry's line appears, and lines come in bucket order |
| `PermHash.TrustedTable.constructor` | modules/permissions/hash.c:77-85 | a fresh bucket array of `PERM_HASH_SIZE` empty buckets |
| `PermHash.NewHashTable` | modules/permissions/hash.c:72-86 | null exactly when allocation fails; otherwise a fresh valid table with every bucket empty |
| `PermHash.TrustedTable.Insert` | modules/permissions/hash.c:106-186 | returns 1 for inserted or skipped and -1 for failed; the new bucket array is the old one with the entry prepended to its bucket on success, and unchanged otherwise; the table invariant is kept |
| `PermHash.TrustedTable.Match` | modules/permissions/hash.c:193-242 | the loop over the selected chain returns exactly the outcome of `Lookup` on the current table |
| `PermHash.TrustedTable.Empty` | modules/permissions/hash.c:269-286 | afterwards every bucket is empty and the bucket count is unchanged |
| `PermHash.TrustedTable.Print` | modules/permissions/hash.c:248-262 | the lines produced are exactly `Listing` of the table: bucket after bucket, each chain head first |
| `PermHash.FreeHashTable` | modules/permissions/hash.c:92-99 | does nothing for null; otherwise empties the table and marks it released, so no further operation may use it |

## Left out

- Shared-memory management (`shm_malloc`/`shm_free`): only whether each allocation succeeds is modelled; releasing entries and strings has no counterpart, so the per-entry release loop inside `empty_hash_table` is not modelled.
- `init_tag_avp` and `get_tag_avp`: parsing the tag AVP specification belongs to the AVP layer; the model takes only its result, whether `tag_avp.n` is non-zero.
- `add_avp`: only whether it accepts the tag is modelled, not the AVP list it writes to.
- `core_hash`: its internals are not part of this model; only the bucket bound after `perm_hash` is used.
- `regcomp`/`regexec`: POSIX regular-expression semantics are not part of this model; `regfree` has no counterpart.
- `ip_addr2a`, `parse_from_header`, `get_from`: message parsing; their results are plain inputs.
- `hash_table_print`: the `fprintf` text format (field widths, `%.*s`) is not modelled; each line is a record of the printed values.
- `LOG` calls: no output is modelled.
- C strings: each Dafny `char` stands for one byte, so `|uri| > MAX_URI_SIZE` is the byte-length test of the C code and `Lower` is the byte-wise ASCII folding of `strncasecmp`; no character encoding is modelled. `char *` arguments are modelled by their bytes; only the From URI, which arrives with an explicit length, is truncated at a NUL in the model.
- Concurrency between reloaders and readers: not modelled; every operation runs alone.
