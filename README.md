# gemcaps in Dafny

A model of the core of gemcaps, a server for the Gemini protocol, with
proofs about it. The repository holds two generations of the server and
both are modelled here.

**The Rust generation** (`src/`):

- `Gemini` (rs_gemini.dfy): the request line parser and the response header.
- `Capsule` (rs_capsule.dfy): capsule rules and their request test.
- `PathUtil` (rs_pathutil.dfy): path joining, base names, percent-encoding of paths, `traversal_safe` and `expand`.
- `RustGlob` (rs_glob.dfy): the glob matcher.
- `RustCgi` (rs_cgi.dfy): the CGI gateway (script search and environment).
- `RustFile` (rs_file.dfy) and `RustFiles` (rs_files.dfy): the static file and directory capsules.
- `RustCache` (rs_cache.dfy): the expiring cache.
- `RustBuffer` (rs_buffer.dfy): the TLS read buffer.
- `RustConfig` (rs_config.dfy) and `RustConfItems` (rs_config_items.dfy): configuration defaults.
- `RustLog` (rs_log.dfy): the log line format.
- Supporting modules:
  - `RustPath` (rs_path.dfy) models Rust paths as sequences of components.
  - `RustFs` (rs_fs.dfy) models the filesystem as a snapshot.
  - `Percent` (percent.dfy) holds percent-encoding and its inverse.
  - `Listing` (listing.dfy) builds the gemtext directory listing.
  - `StringOrder` (string_order.dfy) sorts entry names.

**The C/C++ generation** (`sources/`, `shared/`, `includes/`):

- `CppContext` (cpp_context.dfy): the request parser.
- `CppPath` (cpp_pathutils.dfy): path helpers.
- `CppGlob` (cpp_glob.dfy): globs.
- `CppBufferPipe` (cpp_bufferpipe.dfy): the byte pipe.
- `CppAllocator` (cpp_allocator.dfy): the slot allocators.
- `CppStringLiteral` (cpp_stringliteral.dfy): the fixed-size string builder.
- `CppHandler` (cpp_handler.dfy): the response header writer.
- `CppAnsi` (cpp_ansi.dfy): ANSI colours.
- `CppParams` (cpp_params.dfy): the argument parser.
- `CppExecutor` (cpp_executor.dfy): the CGI process table builder.
- `CppCache` (cpp_cache.dfy): the size-bounded cache.
- `CppSgi` (cpp_sgi.dfy): the GSGI/WSGI pipe protocol.

Code that updates objects in place becomes Dafny classes:

- the caches;
- the buffers and pipes;
- the allocators;
- the string builder;
- the executor's tables;
- the gateway runtime.

Each of these classes has `modifies` clauses, and its methods are proved against specification functions. Code made of expressions becomes functions and lemmas.

The outside world becomes values or parameters:

- the filesystem is a map from paths to nodes;
- a child process is its exit status and output;
- clocks are integer ticks;
- `splitext`, `abspath` and similar host services are function parameters.

Several behaviours of the code as written differ from what its names, comments or tests promise. For each, the model keeps the behaviour as written. It also defines a corrected version and proves the intended property about the corrected version. Each such pair is listed under Findings.

## Model

| member | source | states |
|---|---|---|
| PathUtil.JoinStripsSlashes | src/pathutil.rs:20-28 | `join(a, b)` is `a` without its trailing `/`s, one `/`, and `b` without its leading `/`s |
| PathUtil.JoinExample | src/pathutil.rs:280-285 | `join("foo/", "/bar") == "foo/bar"` |
| PathUtil.JoinBothSlashes | src/pathutil.rs:21-26 | one `/` on each side of the join collapses into one |
| PathUtil.JoinAllSeparates | src/pathutil.rs:41-52 | the `join!` right fold over plain segments is the segments separated by single `/`, so `join!("a","b","c") == "a/b/c"` |
| PathUtil.TraversalSafe | src/pathutil.rs:66-97 | the component loop of `traversal_safe` computes the walk `Traverse`: `..` pops the last kept component and fails on an empty stack or on the root |
| PathUtil.TraverseResult | src/pathutil.rs:66-97 | a successful walk keeps no `..` component, and each `..` removed exactly one earlier component |
| PathUtil.TraverseKeepsRoot | src/pathutil.rs:70-78 | a walk that starts at the root never pops it: the result still starts with the root |
| PathUtil.TraverseRootError | src/pathutil.rs:73-77 | only a path holding the root can fail with "Cannot traverse outside of the root directory" |
| PathUtil.TraverseFixpoint | src/pathutil.rs:87-96 | a component list without `..` comes back unchanged |
| PathUtil.TraverseExamples | src/pathutil.rs:338-342 | `/foo/bar/../cheese` walks to `/foo/cheese`; `/foo/../..` is refused as leaving the root |
| PathUtil.Basename | src/pathutil.rs:108-116 | `basename` returns the input itself, or a non-empty segment without `/` that ends the input after a `/`, with or without one trailing `/` |
| PathUtil.BasenameOfSegment | src/pathutil.rs:108-116 | every segment after a `/` is the basename, with or without one trailing `/` (`basename("asdf/qwerty/") == "qwerty"`) (see also src/pathutil.rs:295-299) |
| PathUtil.BasenameNoSlash | src/pathutil.rs:114 | text without `/` is its own basename (`basename("qwerty") == "qwerty"`) (see also src/pathutil.rs:298) |
| PathUtil.Parent | src/pathutil.rs:136-154 | `parent` is `None` exactly for `"/"` |
| PathUtil.ParentOfSegment | src/pathutil.rs:139 | a directory prefix followed by a segment other than `..` has the prefix as parent, with or without a trailing `/` (see also src/pathutil.rs:153, 304-306) |
| PathUtil.ParentClimbs | src/pathutil.rs:145-151 | `parent("") == "../"`; a path ending in `..` gains `/../`, one ending in `../` gains `../` (see also src/pathutil.rs:308-309) |
| PathUtil.EncodeBinaryPerByte | src/pathutil.rs:189-195 | `encode_binary` keeps every `/` byte and percent-encodes every other byte on its own |
| PathUtil.EncodeIsPerByte | src/pathutil.rs:164-181 | both branches of `encode` (changed or not) equal the per-byte encoding of the text's UTF-8 bytes |
| PathUtil.EncodeRoundTrip | src/pathutil.rs:164-181 | decoding the output of `encode` yields the input's bytes, `/` included |
| PathUtil.EncodeKeepsSegments | src/pathutil.rs:168-177 | splitting the output of `encode` at `/` gives exactly the input's segments, each encoded: no `/` moves and the segment count is unchanged |
| PathUtil.EncodeUnchanged | src/pathutil.rs:162 | text made only of unreserved characters and `/` is returned unchanged (see also src/pathutil.rs:176-180, 313-317) |
| PathUtil.UpToNewline | src/pathutil.rs:212-217 | the capture of `^/(.*)` stops at the first line feed and is a prefix of the text after the `/` |
| PathUtil.ExpandMethod | src/pathutil.rs:210-243 | the recursion and segment loop of `expand` compute `ExpandAsWritten`: an absolute path is refused when its expansion starts with `..`, otherwise joined below `/` |
| PathUtil.ExpandRelativeMethod | src/pathutil.rs:227-242 | the relative branch: `\` read as `/`, the segments expanded in a loop and joined with `/` |
| PathUtil.ExpandStepMethod | src/pathutil.rs:229-240 | one segment: `.` is dropped, `..` pops the last kept segment unless there is none or it is `..`, in which case `..` is kept; anything else is pushed |
| PathUtil.ExpandRelativeIdempotent | src/pathutil.rs:227-242 | the expanded segments are in normal form (no `.`, `..` only at the front) and expanding them again changes nothing |
| PathUtil.ExpandPartsBleed | src/pathutil.rs:197-208 | excess `..` bleed over in a relative path: `foo/bar/../../../` gives `../` (see also src/pathutil.rs:326) |
| PathUtil.ExpandPartsCancel | src/pathutil.rs:205-207 | `foo/bar/../../../cheese/../yeet/` gives `../yeet/` |
| PathUtil.ExpandRooted | src/pathutil.rs:215-225 | an absolute path that expands (as written or corrected) starts with `/` |
| PathUtil.DotDotName | src/pathutil.rs:218-223 | finding: `/..foo` is refused by `expand` as written and accepted unchanged by the corrected check |
| PathUtil.AsWrittenAccepted | src/pathutil.rs:210-225 | whatever `expand` as written accepts, the corrected `Expand` accepts with the same result |
| PathUtil.PlainName | src/pathutil.rs:227-242 | a single name without separators expands to itself in both versions |
| Percent.DecodeEncode | src/pathutil.rs:189-195 | percent-decoding undoes `urlencoding::encode_binary` for every byte string (section 2.1 of RFC 3986) |
| Percent.EncodeUnreserved | src/pathutil.rs:162 | an unreserved byte (ALPHA, DIGIT, `-._~`) encodes as itself (see also src/pathutil.rs:176-180) |
| Percent.EncodedText | src/pathutil.rs:189-192 | every character of the encoded output is `%` or an unreserved character |
| RustPath.Components | src/pathutil.rs:69 | `Path::components` of a byte path: no component after the first is the root or the current directory |
| RustPath.ComponentsTrailingSlash | src/pathutil.rs:69 | a trailing `/` does not change the components of a non-empty path |
| RustGlob.New | src/glob.rs:8-23 | the matchers are the pattern cut at every `*`, none of them holding a `*`, and joining them with `*` gives the pattern back (`"*Hello"` gives `["", "Hello"]`) (see also src/glob.rs:51-60) |
| RustGlob.StarCount | src/glob.rs:12-18 | there is one matcher more than there are `*`s in the pattern |
| RustGlob.Matches | src/glob.rs:25-43 | the loop of `matches` decides the as-written acceptance: the text starts with the first matcher, each matcher is found in turn and cut off after its leftmost occurrence, and what is left is empty unless the glob ends in `*` |
| RustGlob.AsWrittenSound | src/glob.rs:25-43 | every text the code accepts is a match of the glob: first literal at the start, later literals in order, last literal at the end |
| RustGlob.LiteralMatchesItself | src/glob.rs:25-43 | a glob of one literal accepts exactly that literal (`"Hello"` refuses `"hello"`, `"FooHello"`, `""`; `""` accepts only `""`) (see also src/glob.rs:64-70, 100-102) |
| RustGlob.NoStarMatchesItself | src/glob.rs:8-43 | a pattern without `*` matches exactly its own text |
| RustGlob.PrefixRequired | src/glob.rs:27-29 | text not starting with the first literal is refused (see also src/glob.rs:81) |
| RustGlob.TrailingStarAcceptsMore | src/glob.rs:39-41 | a glob ending in `*` that accepts a text accepts every extension of it (see also src/glob.rs:82, 89-90) |
| RustGlob.StarMatchesAll | src/glob.rs:96-98 | the glob `*` accepts every text, the empty one included |
| RustGlob.LastLiteralMatchedLeftmost | src/glob.rs:31-42 | `*Hello` refuses `HelloHello` as written, although the text matches the glob and the corrected matcher accepts it |
| RustGlob.GreedySound | src/glob.rs:31-37 | the corrected search (leftmost occurrence for all literals but the last, the last at the end) only accepts real matches |
| RustGlob.GreedyComplete | src/glob.rs:31-37 | taking each literal's leftmost occurrence loses no match |
| RustGlob.MatchesFixedCorrect | src/glob.rs:25-43 | the corrected matcher accepts exactly the texts the glob describes |
| Gemini.ParseQuery | src/gemini.rs:3-20 | `parse_query` returns a prefix of the request free of `\r\n`: the line up to its first `\r\n`, or up to the first `\n` when there is no `\r\n`, or the whole text when it has no line break |
| Gemini.ParseQueryLine | src/gemini.rs:3-20 | a line ended by `\r\n` loses exactly its ending |
| Gemini.ParsePath | src/gemini.rs:22-32 | `parse_path` splits a prefix of the request into a path free of `?` and a query that starts with `?` exactly when the request holds one, and is empty otherwise |
| Gemini.PathKeepsSlash | src/gemini.rs:22-32 | a path that starts with `/` keeps it |
| Gemini.AtPath | src/gemini.rs:36-40 | when the first `/` is at `n`, the authority is the text before it, the path starts with that `/` and holds no `?`, and the query is empty or starts with `?` |
| Gemini.AtQuery | src/gemini.rs:42-46 | when the authority ends at a `?`, the path is empty and the query starts with that `?` |
| Gemini.ParseDomainAsWritten | src/gemini.rs:34-53 | `parse_domain` as written returns parts that begin the request, an authority without `/` and a path that is empty or starts with `/` |
| Gemini.ParseDomain | src/gemini.rs:34-53 | the corrected `parse_domain` also keeps `?` out of the authority and the path, and its query is empty or starts with `?` |
| Gemini.SlashInQueryAsWritten | src/gemini.rs:36-40 | as written, `host?a/b` splits into the authority `host?a` and the path `/b` |
| Gemini.AsWrittenAtSlash | src/gemini.rs:36-40 | as written, the first `/` ends the authority whatever precedes it |
| Gemini.SlashInQueryFixed | src/gemini.rs:42-46 | corrected, `host?a/b` splits into the authority `host` and the query `?a/b` |
| Gemini.FixedAtQuery | src/gemini.rs:42-46 | corrected, an authority followed by a query keeps the query whole, `/` and all |
| Gemini.Parse | src/gemini.rs:55-66 | `Request::parse` fails with `InvalidData` exactly when the request holds no `://`; on success the protocol holds no `://`, the rendered request begins the input, the domain has no `/` and the path is empty or starts with `/` (see also src/gemini.rs:79-87) |
| Gemini.ParseCorrected | src/gemini.rs:55-66 | the same for the corrected split, with no `?` in the domain or the path (see also src/gemini.rs:79-87) |
| Gemini.RenderParse | src/gemini.rs:79-95 | a request line holding `://` and ended by `\r\n` parses, as written and corrected, and its `Debug` rendering gives the line back without its ending |
| Gemini.DomainLine | src/gemini.rs:34-53 | the authority, path and query of one line put back together give the line without its ending, as written and corrected |
| Gemini.SplitsAgree | src/gemini.rs:34-53 | the as-written and corrected splits agree unless a `?` comes before the first `/` |
| Gemini.WellFormedAgree | src/gemini.rs:34-53 | a well-formed authority, path and query line is split alike as written and corrected |
| Gemini.TestRequestQuery | src/gemini.rs:101-108 | `gemini://localhost/?asdf\r\n` parses into `gemini`, `localhost`, `/`, `?asdf` |
| Gemini.TestRequestNoQuery | src/gemini.rs:110-117 | `gemini://localhost/\r\n` parses into `gemini`, `localhost`, `/` and an empty query |
| Gemini.TestRequestNoPath | src/gemini.rs:119-126 | `gemini://localhost?asdf\r\n` parses into an empty path and the query `?asdf` |
| Gemini.TestRequestDomainOnly | src/gemini.rs:128-135 | `gemini://localhost\r\n` parses into the domain alone |
| Gemini.TestRequestBad | src/gemini.rs:137-140 | `gemini:/localhost\r\n` is refused |
| Gemini.ParseSlashInQuery | src/gemini.rs:55-66 | as written, `gemini://host?a/b\r\n` parses into the domain `host?a` and the path `/b` |
| Gemini.ParseCorrectedSlashInQuery | src/gemini.rs:55-66 | corrected, the same line parses into the domain `host` and the query `?a/b` |
| Gemini.ParseAtSlash | src/gemini.rs:55-66 | as written, the first `/` after the `://` ends the domain and the rest of the line is the path (see also src/gemini.rs:36-40) |
| Gemini.ParseCorrectedAtQuery | src/gemini.rs:55-66 | corrected, a domain followed by a query keeps the query whole (see also src/gemini.rs:42-46) |
| Gemini.ParseProtocol | src/gemini.rs:55-61 | a protocol without `:` is cut off at the `://` that follows it, and the rest is split by `parse_domain` |
| Gemini.TestRequest | src/gemini.rs:55-87 | a well-formed request line parses into exactly its protocol, domain, path and query, as written and corrected, provided a query with no path before it holds no `/` (see also src/gemini.rs:101-135) |
| Gemini.SplitAuthority | src/gemini.rs:34-53 | a domain free of `/` and `?`, a path and a query put together are cut back into the same three parts |
| Capsule.Code | src/capsule.rs:138-159 | `code` gives one of the eighteen Gemini status codes, and its first digit is the status class: 1 exactly for the input kinds, 2 for success, 3 for the redirects, 4 for the temporary failures, 6 for the certificate kinds |
| Capsule.FromCode | src/capsule.rs:18-40 | reading a code, meta text and body back gives a response exactly for the eighteen codes, and that response has the code and meta text read (see also src/capsule.rs:115-159) |
| Capsule.CodeDetermines | src/capsule.rs:115-159 | the code, the meta text and the body determine the response: no two kinds share a code |
| Capsule.NameMatchesCode | src/capsule.rs:138-182 | two responses have the same `name` exactly when they have the same `code` |
| Capsule.CodeFromName | src/capsule.rs:161-182 | the code can be read off the name (its length and first letter) |
| Capsule.NameFromCode | src/capsule.rs:161-182 | the name can be read off the code |
| Capsule.Body | src/capsule.rs:188-193 | `body` is present exactly for a success, and is then its body |
| Capsule.TwoDigits | src/capsule.rs:184-186 | a two-digit code is written as exactly its two digits |
| Capsule.ParseHeader | src/capsule.rs:184-186 | a header line read back is five characters longer than its meta text and ends with `\r\n` |
| Capsule.HeaderRoundTrip | src/capsule.rs:184-186 | `header` (`"<code> <meta>\r\n"`) reads back as the response's code and meta text |
| Capsule.Display | src/capsule.rs:200-208 | the display starts with the header, and is the header alone unless the response is a success |
| Capsule.DisplayRoundTrip | src/capsule.rs:184-208 | a response whose meta text holds no carriage return reads back from its display as itself |
| Capsule.Info | src/capsule.rs:195-197 | `info` starts with the two code digits and ends with the meta text |
| Capsule.TestAsWritten | src/capsule.rs:237-247 | as written, `test` accepts exactly the requests for the capsule's domain, whatever the rules say |
| Capsule.TestFixed | src/capsule.rs:237-247 | the corrected loop accepts exactly when the domain is the capsule's and some rule matches the path |
| Capsule.UnmatchedPathRefused | src/capsule.rs:241-246 | corrected, a path that no rule matches is refused |
| RustCache.ExpiredPrefix | src/cache.rs:87-98 | the number of leading queue entries that have expired: all before it have, the one at it has not |
| RustCache.InsertPos | src/cache.rs:12-16 | the heap files a new entry after every entry that expires no later and before the first that expires later (the reversed `cmp` makes the earliest expiry the top) (see also src/cache.rs:81) |
| RustCache.Push | src/cache.rs:81 | pushing adds the one entry at its place in expiry order, nothing else moves |
| RustCache.PushSorted | src/cache.rs:12-16 | pushing keeps the queue in expiry order (see also src/cache.rs:81) |
| RustCache.PushKeysOf | src/cache.rs:81 | pushing adds exactly the new entry's key |
| RustCache.PushDistinct | src/cache.rs:80-81 | pushing an entry whose key was removed first leaves no key twice |
| RustCache.RemoveKey | src/cache.rs:118-122 | the filtered queue is no longer than the old one |
| RustCache.RemoveKeyFrom | src/cache.rs:120-122 | every entry left by the filter was in the queue and has another key |
| RustCache.RemoveKeyValid | src/cache.rs:118-122 | filtering a key out keeps the expiry order and the distinct keys, and takes exactly that key away |
| RustCache.RemoveAbsentKey | src/cache.rs:114-117 | a queue without the key loses nothing by the filter |
| RustCache.SizeOfValid | src/cache.rs:43-46 | while every cached key has exactly one queue entry, the map holds as many items as the queue has entries (see also src/cache.rs:135-137) |
| RustCache.DropFirst | src/cache.rs:93-94 | popping the queue's head and removing its item keeps every cached key with exactly one queue entry |
| RustCache.Cache.constructor | src/cache.rs:52-57 | `new` gives an empty map and an empty queue |
| RustCache.Cache.ContainsKey | src/cache.rs:60-66 | `contains_key` holds exactly for the keys that have a queue entry |
| RustCache.Cache.Get | src/cache.rs:68-74 | `get` returns the stored value exactly for the keys in the map |
| RustCache.Cache.IsEmpty | src/cache.rs:131-133 | `is_empty` holds exactly when the queue is empty |
| RustCache.Cache.Len | src/cache.rs:135-137 | `len` is the number of queue entries |
| RustCache.Cache.Remove | src/cache.rs:102-124 | `remove` takes the key out of the map and its entry out of the queue, keeping the rest in order and the invariant |
| RustCache.Cache.Insert | src/cache.rs:79-83 | `insert` maps the key to the new value and replaces its queue entry by one expiring `lifetime` ticks after now, keeping the invariant |
| RustCache.Cache.CleanUp | src/cache.rs:87-98 | `clean_up` pops exactly the leading expired entries and their items, returns how many, leaves no expired entry and changes no remaining value |
| RustCache.Cache.Clear | src/cache.rs:126-129 | `clear` empties the map and the queue |
| RustCache.ExpiredLead | src/cache.rs:87-98 | in expiry order the expired entries are exactly the leading ones, so the sweep that stops at the first live entry misses none |
| RustCache.RemovedCount | src/cache.rs:87-98 | the count `clean_up` returns is the number of items that left the map |
| RustCache.InsertScenario | src/cache.rs:146-152 | after inserting `foo` it is found with the value `bar` |
| RustCache.ClearScenario | src/cache.rs:154-163 | one item before `clear`, none after |
| RustCache.FooThenBar | src/cache.rs:165-169 | `foo` with no lifetime then `bar` with five ticks queue in that order |
| RustCache.FooAgain | src/cache.rs:181-183 | inserting `foo` again with five ticks moves it behind `bar` |
| RustCache.CleanUpScenario | src/cache.rs:165-176 | a tick later, two items, one cleaned up, one left |
| RustCache.ReplaceScenario | src/cache.rs:178-190 | after `foo` is re-inserted with a lifetime, nothing is cleaned up and two items stay |
| RustCache.RemoveScenario | src/cache.rs:192-203 | removing one of two keys leaves one item |
| RustBuffer.WrapI64 | src/tls/buffer.rs:45-47 | the wrapped value is congruent to the input modulo 2^64, and equals it when it fits in `i64` |
| RustBuffer.Target | src/tls/buffer.rs:44-48 | the seek target is the offset from the start (negative once it exceeds `i64::MAX`), from the end, or from the current position, whenever the sum fits in `i64` |
| RustBuffer.Buffer.constructor | src/tls/buffer.rs:9-11 | `new` gives an empty buffer read from position 0 |
| RustBuffer.Buffer.WithCapacity | src/tls/buffer.rs:13-15 | `with_capacity` gives the same empty buffer; the capacity changes no content |
| RustBuffer.Buffer.Ready | src/tls/buffer.rs:17-19 | `ready` is the number of bytes after the read position |
| RustBuffer.Buffer.Read | src/tls/buffer.rs:24-39 | `read` copies the smaller of the destination length and the ready count, exactly the next unread bytes, to the front of the destination, leaves the rest of the destination alone and advances the position by that count |
| RustBuffer.Buffer.Seek | src/tls/buffer.rs:43-57 | `seek` fails with `InvalidInput` "Cannot seek below 0" exactly for a negative target and then does not move; otherwise it moves to the target capped at the buffer's length and returns the new position |
| RustBuffer.SeekStartExact | src/tls/buffer.rs:45 | seeking from the start to a position within the buffer lands exactly there; an offset one past `i64::MAX` wraps to a negative target (see also src/tls/buffer.rs:49-55) |
| RustBuffer.SeekZero | src/tls/buffer.rs:46-47 | seeking by zero from the current position stays there; by zero from the end moves to the end |
| RustBuffer.ReadSeekScenario | src/tls/buffer.rs:24-57 | five buffered bytes read into three-byte arrays come out as `[1,2,3]` then `[4,5]` then nothing; seeking below zero is refused and seeking past the end returns 5 |
| RustConfig.NewSubstitution | src/config.rs:130-145 | `Substitution::new` fails with "Expected a string" on empty text; on success the text is separator, pattern, separator, replacement, the separator occurs in neither part, and the pattern compiles |
| RustConfig.SubstitutionParts | src/config.rs:130-145 | every separator-pattern-separator-replacement text whose pattern compiles is accepted and gives back its two parts |
| RustConfig.SubstitutionSeparators | src/config.rs:136-139 | a text whose remainder does not split into exactly two segments at the separator is refused with "Expected a single separator" |
| RustConfig.SubstitutionExample | src/config.rs:425 | `#/app#` gives the pattern `/app` and an empty replacement |
| RustConfig.Fill | src/config.rs:173-177 | a field the item sets stays, a missing one takes the default |
| RustConfig.PopulateDefaults | src/config.rs:172-198 | `populate_defaults` fills each of the five shared fields from the defaults only where the item leaves it out |
| RustConfig.DefaultsOnlyFill | src/config.rs:172-198 | defaults never overwrite a field the item sets, never touch the four kind fields, and filling twice is filling once |
| RustConfig.Globs | src/config.rs:237-238 | one glob per domain name, each the name cut at its `*`s |
| RustConfig.AssertNone | src/config.rs:220-225 | `assert_none` succeeds exactly on `None`, and otherwise fails with "Unexpected token `<name>`" |
| RustConfig.OptionalRule | src/config.rs:259-262 | an optional rule converts exactly when it is absent or compiles, and is kept as it is |
| RustConfig.OptionalSubstitution | src/config.rs:263-266 | an absent substitution gives `None`; a present one converts exactly when `Substitution::new` accepts it, to that substitution |
| RustConfig.RedirectFrom | src/config.rs:227-244 | a redirect converts exactly when it has no CGI root, file root, proxy, rule or substitution and has domains and a target, keeping the domains as globs and the logs |
| RustConfig.ProxyFrom | src/config.rs:246-269 | a proxy converts exactly when it has no CGI root, file root or redirect, has domains, a parseable proxy request and a valid rule and substitution, keeping the domains as globs, the proxy, logs and rule, and storing the substitution `Substitution::new` parses (none when absent) |
| RustConfig.CgiFrom | src/config.rs:271-294 | a CGI item converts exactly when it has no proxy, file root or redirect, has domains and a CGI root and a valid rule and substitution, keeping the domains as globs, the CGI root, logs and rule, and storing the substitution `Substitution::new` parses (none when absent) |
| RustConfig.FileFrom | src/config.rs:296-319 | a file item converts exactly when it has no proxy, CGI root or redirect, has domains and a file root and a valid rule and substitution, keeping the domains as globs, the file root, logs and rule, and storing the substitution `Substitution::new` parses (none when absent) |
| RustConfig.ItemFrom | src/config.rs:202-218 | the kind is chosen redirect first, then proxy, then CGI root, then file root, the item holding exactly the value its kind's own conversion gives, and a redirect's error being that conversion's error; an item of no kind hits `unreachable!`, and an item without domains always fails |
| RustConfig.RedirectExclusive | src/config.rs:206-207 | a redirect item converts exactly when it names no CGI root, file root, proxy, rule or substitution and has domains (see also src/config.rs:227-244, 406-416) |
| RustConfig.ConvertItems | src/config.rs:354-357 | the conversion succeeds exactly when every item, with the defaults filled in, converts, and then yields those items in order |
| RustConfig.CapsuleConfFrom | src/config.rs:339-383 | `try_from` fails with the first item's error, or with "certificate and certificate_key are needed together" exactly when one of the pair is missing; on success the items are the converted ones, `listen` defaults to `0.0.0.0:1965`, the certificate pair is kept, and the error log, pid file and worker count are copied |
| RustConfig.ConvertAll | src/config.rs:354-357 | the loop over the items computes the conversion of the whole list, stopping at the first failure |
| RustConfig.ConvertItemsAppend | src/config.rs:354-357 | converting one more item extends the converted prefix, or fails with that item's error |
| RustConfig.ConvertItemsPrefixErr | src/config.rs:356 | a failure in a prefix of the items is the failure of the whole list |
| RustConfig.InvalidRedirectExample | src/config.rs:406-416 | a redirect item with a rule is refused with "Unexpected token `rule`" |
| RustConfig.FullConfigItems | src/config.rs:466-515 | the four tables of the full configuration convert to a redirect, a proxy, a CGI and a file item, with the top-level logs and domains where they set none |
| RustConfig.FullConfigScenario | src/config.rs:466-515 | the full configuration yields four items of the four kinds in order, with the inherited logs and domains, the default listen address and the certificate pair |
| RustConfItems.CgiConf.constructor | src/config/cgi.rs:10-18 | a CGI item holds the given domains, CGI root, logs and rule |
| RustConfItems.CgiConf.Rule | src/config/cgi.rs:26-31 | `rule()` is present exactly when the item has a rule, and is that rule |
| RustConfItems.CgiConf.ApplyDefaultDomainNames | src/config/cgi.rs:53-57 | an empty domain list takes the defaults, a non-empty one stays; afterwards a second application would change nothing; no other field changes |
| RustConfItems.CgiConf.ApplyDefaultRule | src/config/cgi.rs:59-63 | only an item without a rule takes the default, so afterwards it has one; no other field changes |
| RustConfItems.CgiConf.ApplyDefaultErrorLog | src/config/cgi.rs:65-69 | only an item without an error log takes the default; no other field changes |
| RustConfItems.CgiConf.ApplyDefaultAccessLog | src/config/cgi.rs:71-75 | only an item without an access log takes the default; no other field changes |
| RustConfItems.RedirectConf.constructor | src/config/redirect.rs:10-17 | a redirect item holds the given domains, target and logs |
| RustConfItems.RedirectConf.Rule | src/config/redirect.rs:25-28 | a redirect item never has a rule |
| RustConfItems.RedirectConf.ApplyDefaultDomainNames | src/config/redirect.rs:50-54 | an empty domain list takes the defaults, a non-empty one stays; the target and logs do not change |
| RustConfItems.RedirectConf.ApplyDefaultRule | src/config/redirect.rs:56 | the default rule is ignored: the item still has no rule |
| RustConfItems.RedirectConf.ApplyDefaultErrorLog | src/config/redirect.rs:58-62 | only an item without an error log takes the default; no other field changes |
| RustConfItems.RedirectConf.ApplyDefaultAccessLog | src/config/redirect.rs:64-68 | only an item without an access log takes the default; no other field changes |
| RustConfItems.CgiDefaultsTwice | src/config/cgi.rs:53-75 | applying every default twice leaves a CGI item as applying them once does, and the item's own values survive both rounds |
| RustCgi.IndexIn | src/capsule/cgi.rs:74-96 | the scan of a directory's entries finds, if anything, an entry of that directory that is a regular file with an accepted extension; it fails only with `NotFound` |
| RustCgi.Probe | src/capsule/cgi.rs:62-98 | one look at a path: a missing path gives nothing, a regular file with an accepted extension is the script, and whatever is found is such a file |
| RustCgi.StripSlash | src/capsule/cgi.rs:40-43 | the path with at most one trailing `/` removed (see also src/capsule/cgi.rs:106-110) |
| RustCgi.ReplaceFirst | src/capsule/cgi.rs:66 | `replacen(pat, "", 1)` leaves text without `pat` alone, shortens it by `pat`'s length otherwise, and drops a leading `pat` (see also src/capsule/cgi.rs:91) |
| RustCgi.SearchSound | src/capsule/cgi.rs:61-111 | whatever the upward walk finds is a regular file with an accepted extension, its `cgi_path` is the original path with the script's URL path removed once, and a failed walk is `NotFound` |
| RustCgi.WalkLeavesCgiRoot | src/capsule/cgi.rs:100-102 | the walk climbs past the CGI root: with nothing under `/srv/c` and a file at `/srv`, `/srv` is found with the URL path `..` |
| RustCgi.DoubleSlashAsWritten | src/capsule/cgi.rs:22-37 | the request path `//e` keeps one leading `/` after the strip, so joining it replaces the CGI root and the search starts at `/e` |
| RustCgi.TraversalRefused | src/capsule/cgi.rs:31-37 | a path that climbs above its start is refused with `PermissionDenied` "Attempted to leave root directory" before any lookup |
| RustCgi.ScanDir | src/capsule/cgi.rs:74-96 | the loop over the entries computes the scan `IndexIn` |
| RustCgi.FindCgiFile | src/capsule/cgi.rs:21-112 | `find_cgi_file` computes the search `FindCgi` (decode, refuse traversal, `expand`, then walk up from the root joined with the checked path, using the corrected join) |
| RustCgi.FindCgiSound | src/capsule/cgi.rs:21-112 | a script the search reports is a regular file with an accepted extension |
| RustCgi.FirstSpace | src/capsule/cgi.rs:117 | the leftmost whitespace position, with no whitespace before it, or none at all (see also src/capsule/cgi.rs:148) |
| RustCgi.Words | src/capsule/cgi.rs:117 | splitting at runs of whitespace gives at least one piece and no piece holds whitespace (see also src/capsule/cgi.rs:148) |
| RustCgi.WordsSpaced | src/capsule/cgi.rs:148 | splitting undoes joining non-empty words with single spaces |
| RustCgi.Command | src/capsule/cgi.rs:146-158 | without `#!` the script itself runs with no arguments; with `#!` the arguments end with the script |
| RustCgi.ShebangArguments | src/capsule/cgi.rs:146-158 | a `#!` line of single-spaced words: the first word is the command and the others, then the script, are its arguments |
| RustCgi.TrimNewline | src/capsule/cgi.rs:148 | `trim` removes the line feed that ends the line and nothing else |
| RustCgi.FixedValues | src/capsule/cgi.rs:186 | the interface version is `1.1` and the protocol `GEMINI` (see also src/capsule/cgi.rs:193) |
| RustCgi.AbsoluteNamed | src/capsule/cgi.rs:129-133 | a named script path made absolute has a parent, so `GEMINI_DOCUMENT_ROOT` is defined (see also src/capsule/cgi.rs:195) |
| RustCgi.Port | src/capsule/cgi.rs:192 | the port is the text after the last `:` of the listen address |
| RustCgi.PathVars | src/capsule/cgi.rs:162-175 | `PATH_INFO` and `PATH_TRANSLATED` are set exactly when the script has a path below it, `PATH_INFO` being that path percent-decoded |
| RustCgi.Optional | src/capsule/cgi.rs:160-181 | the optional variables: the two path variables exactly when there is a path below the script, `PATH` exactly when the host has one, `QUERY_STRING` exactly for a non-empty query and then equal to it |
| RustCgi.AllVars | src/capsule/cgi.rs:183-199 | every variable the gateway sets is among the sixteen it knows |
| RustCgi.Fixed | src/capsule/cgi.rs:185-198 | every fixed variable is set, with its fixed value |
| RustCgi.EnvironmentFixed | src/capsule/cgi.rs:185-199 | the optional variables never shadow a fixed one: every fixed variable reaches the script with its value |
| RustCgi.NotOptional | src/capsule/cgi.rs:160-181 | only the four optional variables come from `optional_envs` |
| RustCgi.EnvironmentValues | src/capsule/cgi.rs:185-198 | every script sees `GATEWAY_INTERFACE=1.1`, an empty `REQUEST_METHOD`, `SERVER_PROTOCOL=GEMINI`, the listen port and the decoded `SCRIPT_NAME` |
| RustCgi.EnvironmentOptional | src/capsule/cgi.rs:162-181 | the environment holds `PATH_INFO` and `PATH_TRANSLATED` exactly when there is a path below the script, `QUERY_STRING` exactly for a non-empty query, `PATH` exactly when the host has one (see also src/capsule/cgi.rs:199) |
| RustCgi.ReplyTo | src/capsule/cgi.rs:206-216 | a failed script gives the CGI error "exited with status ..." whatever it printed; a successful one gives the parsed response exactly when its output parses |
| RustCgi.FailureIsCgiError | src/capsule/cgi.rs:206-216 | a failed script, or output that does not parse, is answered with status 42 |
| RustCgi.OptionalEnvs | src/capsule/cgi.rs:160-181 | the map filled in place is the optional variables |
| RustCgi.BuildEnvironment | src/capsule/cgi.rs:183-199 | the command's environment is the fixed variables, then the optional ones |
| RustCgi.RunScript | src/capsule/cgi.rs:129-216 | after the search: an unreadable first line is passed on and nothing runs; otherwise the command is run with the shebang's arguments and the built environment, and its output becomes the reply, or its spawn error is passed on |
| RustCgi.ProcessCgiRequest | src/capsule/cgi.rs:115-216 | a search ending in `NotFound` is no response, another failure is passed on and nothing runs; a found script runs as `RunScript` says, and every response comes from a run |
| RustFile.Clean | src/capsule/file.rs:9-43 | every redirect `clean_path` returns is temporary when the request has a query and permanent when it has none |
| RustFile.CleanPath | src/capsule/file.rs:9-43 | the loop of `clean_path`, reassigning both paths, computes `Clean` on the request path (with the corrected join) |
| RustFile.DirectoryRedirect | src/capsule/file.rs:19-28 | a directory requested without its trailing `/` is redirected to the path with it: temporarily with `?query` appended when there is a query, permanently otherwise |
| RustFile.NoRedirectWhenPresent | src/capsule/file.rs:17-30 | an entry that exists as requested, and is not a directory lacking its `/`, is served without a redirect |
| RustFile.TrailingSlashRetried | src/capsule/file.rs:32-38 | a missing entry requested with a trailing `/` is looked up again with one `/` less on both paths |
| RustFile.FileLosesSlash | src/capsule/file.rs:17-38 | a file requested with a trailing `/` is redirected to its name without it |
| RustFile.FoundFile | src/capsule/file.rs:22-28 | a file found under a redirect path other than the request's is a redirect to that path |
| RustFile.MissingRootPanics | src/capsule/file.rs:32-36 | the request path `/` under a missing root panics: the redirect path loses its `/`, and the already empty local path cannot (see also src/capsule/file.rs:48-51) |
| RustFile.Collect | src/capsule/file.rs:74-93 | at most one name per entry is collected, and every folder name ends with `/` |
| RustFile.AddFolder | src/capsule/file.rs:87-90 | a folder goes in front of the names collected after it, and an error passes through |
| RustFile.AddFile | src/capsule/file.rs:91 | a file goes in front of the names collected after it, and an error passes through |
| RustFile.CollectEntries | src/capsule/file.rs:74-93 | the `while let` over the entries, pushing into `folders` and `files`, computes `Collect` |
| RustFile.FileReply | src/capsule/file.rs:45-111 | a request path that leaves the root is answered with status 50 "Permission denied" |
| RustFile.TraversalRefused | src/capsule/file.rs:53-60 | that refusal has status 50 and comes before any lookup, whatever the filesystem holds |
| RustFile.DoubleSlashAsWritten | src/capsule/file.rs:48-70 | as written, the request path `//e` names `/e` whatever the root, and a file there is served |
| RustFile.ProcessFileRequest | src/capsule/file.rs:45-111 | `process_file_request` computes `FileReply` with the corrected join |
| Listing.IgnoresOrder | src/capsule/file.rs:96-106 | the order in which the directory yields its entries does not show in the listing (see also src/capsule/files.rs:72-80) |
| Listing.LinesAppend | src/capsule/file.rs:98-104 | appending one more item appends exactly its link line |
| Listing.AppendLines | src/capsule/file.rs:98-104 | one `for` loop appends a link line `=> <path joined with item> <icon><item>` per item, in order (see also src/capsule/files.rs:74-80) |
| Listing.Build | src/capsule/file.rs:96-106 | the listing is the heading `# <path>` and a blank line, the folders in ascending order, then the files in ascending order (see also src/capsule/files.rs:72-80) |
| StringOrder.LessEqTotal | src/capsule/file.rs:97 | any two names are ordered one way or the other (see also src/capsule/file.rs:101) |
| StringOrder.LessEqTransitive | src/capsule/file.rs:97 | the name order is transitive (see also src/capsule/file.rs:101) |
| StringOrder.LessEqAntisymmetric | src/capsule/file.rs:97 | two names ordered both ways are equal (see also src/capsule/file.rs:101) |
| StringOrder.Insert | src/capsule/file.rs:97 | inserting into a sorted sequence keeps it sorted and adds exactly that name (see also src/capsule/file.rs:101) |
| StringOrder.Sort | src/capsule/file.rs:97 | `sort` gives the names in ascending order, each as often as given (see also src/capsule/file.rs:101) |
| StringOrder.SortedUnique | src/capsule/file.rs:97 | a sorted arrangement of given names is the only one (see also src/capsule/file.rs:101) |
| RustFiles.Test | src/capsule/files.rs:97-110 | `test` accepts every path when no extensions are listed; otherwise it refuses a base name whose extension is present and not listed, and a path `expand` refuses; a path whose extension is empty or listed is accepted exactly when `expand` accepts it |
| RustFiles.TestWithoutExtension | src/capsule/files.rs:101-109 | a name without an extension is accepted exactly when no extensions are listed or `expand` accepts the path |
| RustFiles.Scan | src/capsule/files.rs:47-63 | every folder name the walk collects ends with `/` |
| RustFiles.AddFolder | src/capsule/files.rs:49-51 | a folder goes in front of the names found after it; an index or an error passes through |
| RustFiles.AddFile | src/capsule/files.rs:57 | a file goes in front of the names found after it; an index or an error passes through |
| RustFiles.ScanIndex | src/capsule/files.rs:47-63 | the walk returns an index file only if some entry is one, and that entry's file; it returns names only when no entry is one |
| RustFiles.ScanEntries | src/capsule/files.rs:43-63 | the `while let` over the entries, returning at the first index file, computes `Scan` |
| RustFiles.ReadResult | src/capsule/files.rs:34-89 | `read_file` passes on a metadata error, and refuses with `PermissionDenied` "This is neither a file or a folder" an entry that is neither |
| RustFiles.ReadFile | src/capsule/files.rs:34-89 | the method computes `ReadResult` |
| RustFiles.Redirect | src/capsule/files.rs:125-130 | there is a redirect exactly when having no extension disagrees with ending in `/`: a path without an extension gains a `/`, one with an extension loses its last character `/` |
| RustFiles.RedirectSettles | src/capsule/files.rs:125-130 | the path a redirect leads to is not redirected again, unless the request ended with `//` |
| RustFiles.Reply | src/capsule/files.rs:111-147 | every response of `serve` starts with status `20 `, `31 ` or `51 ` |
| RustFiles.Answer | src/capsule/files.rs:133-146 | a read file is `20 <mime>\r\n<text>`; a refusal is `51 Permission Denied`, every other error `51 File not found` |
| RustFiles.TraversalDenied | src/capsule/files.rs:116-121 | a path that leaves the directory gets `51 Permission Denied` before anything is looked up |
| RustFiles.SlashRedirects | src/capsule/files.rs:125-130 | an accepted path without an extension or trailing `/` gets `31 <path>/`; one with an extension and a trailing `/` gets `31` and the path without it |
| RustFiles.IndexServed | src/capsule/files.rs:42-61 | a directory holding an index file is served as that file, which is one of its entries |
| RustFiles.DirectoryWithoutIndex | src/capsule/files.rs:64-82 | a directory without an index file is refused when folders are not served, and otherwise listed as gemtext |
| RustFiles.MissingNotFound | src/capsule/files.rs:38 | a path that names nothing gets `51 File not found` (see also src/capsule/files.rs:135-139) |
| RustFiles.DoubleSlashAsWritten | src/capsule/files.rs:112-121 | as written, the request path `//e/` names `/e` whatever the directory, and a file there is served |
| RustFiles.Serve | src/capsule/files.rs:111-147 | `serve` computes `Reply` with the corrected join and returns the capsule's cache lifetime |
| RustFiles.CanLoad | src/capsule/files.rs:153-163 | `can_load` holds exactly for a table whose `files` entry is a table |
| RustFiles.CacheLifetime | src/capsule/files.rs:173-176 | no cache lifetime exactly when caching is switched off; otherwise the configured lifetime, or 0 |
| RustPath.Parent | src/capsule/cgi.rs:100-102 | `Path::parent` is `None` exactly for the empty path and a path ending at the root, and otherwise drops the last component |
| RustPath.JoinPath | src/capsule/cgi.rs:32 | `PathBuf::join` with an absolute argument gives the argument; with a relative one free of `.` it appends its components (see also src/capsule/file.rs:14) |
| RustPath.Extension | src/capsule/cgi.rs:46-59 | `Path::extension` is the text without `.` after the last `.` of the file name, that dot not starting the name |
| RustFs.Metadata | src/capsule/cgi.rs:62 | `fs::metadata` succeeds exactly for a path in the filesystem (a directory when the path ends with `/`) and returns its entry (see also src/capsule/file.rs:17) |
| RustFs.NoRoot | src/capsule/cgi.rs:24-37 | dropping every root component leaves a path without one, no longer than before |
| RustFs.Below | src/capsule/cgi.rs:32-37 | a checked path placed below a root always starts with that root (see also src/capsule/file.rs:54-60) |
| RustFs.Local | src/capsule/file.rs:48-51 | the request path without one leading `/` (see also src/capsule/files.rs:112-115) |
| RustFs.TargetInsideRoot | src/capsule/file.rs:53-60 | corrected, the file a request names always lies below the root (see also src/capsule/files.rs:116-121) |
| RustFs.RootedName | src/capsule/file.rs:48-54 | the absolute path `/e` passes the traversal check unchanged, root component included |
| RustLog.Logger.constructor | src/log.rs:39-41 | `new` sets the name; group, topic, log paths and open files are all absent |
| RustLog.Logger.Format | src/log.rs:63-77 | `format` starts with `<action> [<name>]` or `<action> [<name>|<group>]` and ends with `] <topic> - <message>` or `] <message>` |
| RustLog.FormatShapes | src/log.rs:63-77 | the four shapes of a line for the name `gemcaps`, by whether a group and a topic are set |
| RustLog.FormatReadBack | src/log.rs:63-77 | every line reads back into its action, name, group, topic and message when the separators cannot be mistaken for content |
| RustLog.SplitNameBack | src/log.rs:66-74 | the name and group come back from the bracketed text |
| RustLog.SplitTopicBack | src/log.rs:66-74 | the topic and message come back from the text after the brackets |
| RustLog.Logger.SetGroup | src/log.rs:43-45 | `set_group` sets the group and changes nothing else |
| RustLog.Logger.SetTopic | src/log.rs:53-55 | `set_topic` sets the topic and changes nothing else |
| RustLog.Logger.Clone | src/log.rs:26 | `clone` is a new logger with the same fields, sharing the open files |
| RustLog.Logger.AsGroup | src/log.rs:47-51 | `as_group` is a new logger equal to the receiver but for the group |
| RustLog.Logger.AsTopic | src/log.rs:57-61 | `as_topic` is a new logger equal to the receiver but for the topic |
| RustLog.Logger.SetAccess | src/log.rs:115-134 | `set_access` to the error log's path shares the error handle; to the current path changes nothing; any other path is opened, a failure leaving the log as it was; the error log never changes |
| RustLog.Logger.SetError | src/log.rs:136-155 | `set_error`, the same with the roles of the two logs swapped |
| RustLog.Logger.SetLogs | src/log.rs:157-165 | `set_logs` sets each given path, the access log first; a failure on the access log leaves the error log alone; one path for both shares one handle; nothing given is `Ok` |
| RustLog.Logger.AsLogs | src/log.rs:167-171 | `as_logs` returns a new logger with the given paths and the receiver's name, group and topic |
| CppPath.FirstSep | sources/pathutils.cpp:90-91 | the position of the first `/` or `\`, with no separator before it, or none when the text has none |
| CppPath.LastSep | sources/pathutils.cpp:39-40 | the position of the last `/` or `\`, with no separator after it, or none (see also sources/pathutils.cpp:64-65) |
| CppPath.NearerSep | sources/pathutils.cpp:90-114 | the nearer of the two `find` results is the first separator |
| CppPath.LaterSep | sources/pathutils.cpp:64-81 | the later of the two `rfind` results is the last separator |
| CppPath.DropSep | sources/pathutils.cpp:12-14 | one leading separator removed, the path unchanged otherwise |
| CppPath.Join | sources/pathutils.cpp:11-20 | `join(root, path)` starts with the root and ends with the path without one leading separator, with at most one `/` put between them (see also test/test_pathutils.cpp:12-19) |
| CppPath.JoinList | sources/pathutils.cpp:22-32 | the stream loop of `join(paths, sep)` writes the elements separated by `sep` (`""` for no elements) (see also test/test_pathutils.cpp:21-26) |
| CppPath.Parts | sources/pathutils.cpp:84-117 | `split` cuts the text at every separator; no component holds a separator, and only `""` gives no component |
| CppPath.PartsCons | sources/pathutils.cpp:89-115 | a text whose first separator is at `end` splits into its first component, then the components after that separator |
| CppPath.FindSep | sources/pathutils.cpp:90-114 | the two searches of one turn, the nearer result kept, find the first separator |
| CppPath.SplitTurn | sources/pathutils.cpp:89-115 | one turn of the loop either ends with all the components or pushes one and moves `start` forward |
| CppPath.Split | sources/pathutils.cpp:84-117 | the loop of `split` computes `Parts`: a leading separator gives a first component `""`, a trailing one adds nothing, `\` splits like `/` (see also test/test_pathutils.cpp:43-48) |
| CppPath.PartsAfterSep | sources/pathutils.cpp:84-117 | text ending with a separator splits as its components and then those of what follows |
| CppPath.PartsTrailingSep | sources/pathutils.cpp:89-115 | a separator after a non-empty last component adds no component (see also test/test_pathutils.cpp:46) |
| CppPath.JoinParts | sources/pathutils.cpp:11-20 | joining below a non-empty root gives the root's components followed by those of the joined path (see also sources/pathutils.cpp:84-117) |
| CppPath.PartsOfJoin | sources/pathutils.cpp:22-32 | components without separators, the last not empty, joined with `/` split back into themselves (see also sources/pathutils.cpp:84-117) |
| CppPath.IsRel | sources/pathutils.cpp:169-179 | `isrel` holds exactly when the first component is not the empty one a leading separator gives |
| CppPath.Trimmed | sources/pathutils.cpp:35-37 | the path without its trailing separators: a prefix ending in a non-separator, the path itself when it has none, non-empty when the path has a name (see also sources/pathutils.cpp:60-62) |
| CppPath.PopSeparators | sources/pathutils.cpp:35-37 | the `pop_back` loop removes exactly the trailing separators (see also sources/pathutils.cpp:60-62) |
| CppPath.Basename | sources/pathutils.cpp:34-57 | the method computes `basename` as written |
| CppPath.Base | sources/pathutils.cpp:34-57 | the intended base name: non-empty and free of separators |
| CppPath.Dirname | sources/pathutils.cpp:59-82 | `dirname` is empty or ends with a separator (see also test/test_pathutils.cpp:35-41) |
| CppPath.DirnameOf | sources/pathutils.cpp:59-82 | the method computes `Dirname` |
| CppPath.DirnameBase | sources/pathutils.cpp:34-82 | the directory and the intended base name make up the path without its trailing separators |
| CppPath.BasenameAgrees | sources/pathutils.cpp:34-57 | `basename` as written is the last component unless a `\` follows the last `/` (see also test/test_pathutils.cpp:28-33) |
| CppPath.BasenameMixedSeparators | sources/pathutils.cpp:46-48 | as written, `basename("a/b\c")` is `b\c`, not `c`, so directory and base name no longer make up the path |
| CppPath.IsSubpath | sources/pathutils.cpp:119-131 | `isSubpath` holds exactly when one component list is a prefix of the other |
| CppPath.SubpathSymmetric | sources/pathutils.cpp:119-131 | `isSubpath` holds in both argument orders or in neither |
| CppPath.RelPathParts | sources/pathutils.cpp:133-145 | when `rel`'s components begin `path`'s, the result's components are exactly those after them (see also test/test_pathutils.cpp:50-56) |
| CppPath.RelativePath | sources/pathutils.cpp:133-145 | the loop of `relpath` computes `RelPath`: `path` unchanged at the first mismatch, else the rest of its components joined |
| CppPath.RanOut | sources/pathutils.cpp:137-144 | when the loop of `relpath` runs out of one list with equal fronts, the result is the rest of `path`'s components |
| CppPath.DeleteUps | sources/pathutils.cpp:147-167 | the loop of `delUps` computes the walk as written |
| CppPath.DelUpsNormal | sources/pathutils.cpp:147-167 | the result's components hold no separator, `.` or `..`, and an empty one only first (see also test/test_pathutils.cpp:58-63) |
| CppPath.WalkKeeps | sources/pathutils.cpp:150-164 | normal components pass through the walk unchanged |
| CppPath.DelUpsIdempotent | sources/pathutils.cpp:147-167 | `delUps` changes nothing the second time |
| CppPath.DelUpsKeepsRoot | sources/pathutils.cpp:154-158 | corrected, an absolute path keeps its root through every `..` |
| CppPath.DelUpsAboveRoot | sources/pathutils.cpp:154-158 | as written `delUps("/../a")` is the relative `a`; corrected it is `/a` |
| CppGlob.CutStar | sources/glob.cpp:10-16 | cutting the rest of the text at its first `*` moves one more literal to the list, which stays a prefix of the `*`-separated pieces |
| CppGlob.LastPiece | sources/glob.cpp:17-19 | the rest without `*` is the last literal, and there is one literal more than the glob has stars |
| CppGlob.Glob.Empty | includes/glob.hpp:18 | `Glob()` holds no literal |
| CppGlob.Glob.constructor | includes/glob.hpp:19 | `Glob(text)` holds the text's `*`-separated pieces |
| CppGlob.Glob.Copy | includes/glob.hpp:20-21 | the copy holds the same literals |
| CppGlob.Glob.Compile | sources/glob.cpp:8-20 | `compile` replaces the literals by the text's `*`-separated pieces, one more than the stars |
| CppGlob.Glob.Assign | includes/glob.hpp:26 | assigning a text recompiles, dropping the old literals |
| CppGlob.Glob.Match | sources/glob.cpp:22-50 | the loop of `match` computes the matcher as written: the first literal anchored at the start, each later one cut at its leftmost occurrence, and nothing left over when the last literal is not empty |
| CppGlob.Glob.EqualsText | includes/glob.hpp:28 | comparing with a text is a match |
| CppGlob.Glob.EqualsGlob | includes/glob.hpp:29 | two globs compare equal exactly when their literals are the same |
| CppGlob.Glob.Str | sources/glob.cpp:52-61 | `str` writes the literals separated by `*` |
| CppGlob.Glob.ToString | includes/glob.hpp:31 | the conversion to text is `str` |
| CppGlob.CutEmpty | sources/glob.cpp:33-35 | an empty literal leaves the text as it is |
| CppGlob.CutStep | sources/glob.cpp:36-40 | a literal found at its leftmost position leaves the text after it for the rest |
| CppGlob.CutMissing | sources/glob.cpp:36-39 | a literal that does not occur refuses the text |
| CppGlob.StrCompile | sources/glob.cpp:8-20 | `str` after compiling a text gives that text back (see also sources/glob.cpp:52-61) |
| CppGlob.CompiledEqual | sources/glob.cpp:8-20 | globs compiled from two texts compare equal exactly when the texts are equal (see also includes/glob.hpp:29) |
| CppGlob.PrefixRequired | sources/glob.cpp:23-28 | a text not starting with the first literal is refused |
| CppGlob.EmptyGlobMatchesAll | sources/glob.cpp:8-20 | the empty glob compiles to one empty literal and matches every text, unlike the Rust matcher, which takes only the empty text (see also sources/glob.cpp:22-50) |
| CppGlob.LiteralMatchesItself | sources/glob.cpp:22-50 | a single non-empty literal matches exactly itself |
| CppGlob.NoStarMatchesItself | sources/glob.cpp:8-20 | a non-empty glob without `*` matches exactly its own text (see also sources/glob.cpp:22-50) |
| CppGlob.TrailingStarAcceptsMore | sources/glob.cpp:43-48 | a glob ending in `*` still matches when text is added after a match |
| CppGlob.AsWrittenSound | sources/glob.cpp:22-50 | what the code accepts, the empty glob aside, is an anchored match: the literals occur in order, the first at the start, the last at the end |
| CppGlob.MatchesFixedCorrect | sources/glob.cpp:22-50 | the corrected matcher, which looks for the last literal at the end, accepts exactly the anchored matches, and every text for the empty glob |
| CppGlob.AsWrittenStricter | sources/glob.cpp:22-50 | the code never accepts what the corrected matcher refuses |
| CppGlob.LastLiteralMatchedLeftmost | sources/glob.cpp:36-48 | as written `a*b` refuses `abb`, which it describes; the corrected matcher accepts it |
| CppContext.Strip | sources/context.cpp:11-26 | the two trimming loops keep the line between the first and the last character that is not white space, and leave a line of white space only as it is |
| CppContext.StripStart | sources/context.cpp:13-19 | the first loop cuts before the first character that is not white space, if there is one |
| CppContext.StripEnd | sources/context.cpp:20-26 | the second loop cuts after the last character that is not white space, if there is one |
| CppContext.AllSpace | sources/context.cpp:13-26 | a line is all white space seen from either end alike |
| CppContext.TrimStartAt | sources/context.cpp:14-18 | one turn of the first loop: a leading space is skipped, anything else stops it |
| CppContext.TrimEndAt | sources/context.cpp:21-25 | one turn of the second loop: a trailing space is skipped, anything else stops it |
| CppContext.StrippedLine | sources/context.cpp:11-28 | white space around a line is dropped and nothing else (the `\r\n` of every request line) (see also test/test_gemini_request.cpp:5-15) |
| CppContext.DigitRun | sources/context.cpp:55-65 | the decimal digits a text starts with, ending at the first non-digit |
| CppContext.DigitsFree | sources/context.cpp:49-65 | digits hold none of `:`, `/`, `?`, which end the parts of a request |
| CppContext.AtoiDigits | sources/context.cpp:55 | `atoi` reads the value of a run of digits whatever non-digit follows (see also sources/context.cpp:59, 65) |
| CppContext.AtoiDecimal | sources/context.cpp:55 | `atoi` reads back the decimal form of any natural number; C guarantees this only up to INT_MAX (see also sources/context.cpp:59, 65; test/test_gemini_request.cpp:17-27) |
| CppContext.SameSchema | sources/context.cpp:109-120 | the scheme check holds exactly for `gemini` in any letter case (see also test/test_gemini_request.cpp:101-110) |
| CppContext.SplitQuery | sources/context.cpp:97-107 | the path runs to the first `?` and the query, which keeps the `?`, from there; together they are the text |
| CppContext.PathAndQuery | sources/context.cpp:97-120 | after the host, the path and query are cut at the first `?`, and the request is valid unless a query is present and the scheme is not `gemini` |
| CppContext.AfterScheme | sources/context.cpp:36-120 | the constructor as written after `://`: scheme unchanged, a request that is valid with both a path and a query only under `gemini` |
| CppContext.WithPort | sources/context.cpp:40-66 | the branch with a `:`, shaped like every parse result |
| CppContext.WithoutPort | sources/context.cpp:67-96 | the branch without a `:`, shaped like every parse result |
| CppContext.ParseAsWritten | sources/context.cpp:30-35 | a request without `://` is invalid |
| CppContext.ParseLine | sources/context.cpp:30-120 | the parsing statements compute `ParseAsWritten` |
| CppContext.ParseWithPort | sources/context.cpp:40-66 | the statements with their early returns compute `WithPort` |
| CppContext.ParseWithoutPort | sources/context.cpp:67-96 | the statements with their early returns compute `WithoutPort` |
| CppContext.ParsePathQuery | sources/context.cpp:97-120 | the statements compute `PathAndQuery` |
| CppContext.GeminiRequest.constructor | sources/context.cpp:8-28 | the object keeps the trimmed line and its parts are `ParseAsWritten` of that line (see also includes/context.hpp:21) |
| CppContext.GeminiRequest.Parse | sources/context.cpp:30-120 | parsing leaves the line kept unchanged and sets the parts to `ParseAsWritten` of it |
| CppContext.GeminiRequest.RequestName | sources/context.cpp:123-131 | the name is host, `:`, the port (1965 for 0) and the path |
| CppContext.CutAt | sources/context.cpp:31-38 | a `find` returns the first occurrence when what comes before holds none |
| CppContext.SchemeAt | sources/context.cpp:31-37 | the first `://` follows a scheme free of `:` |
| CppContext.LeadingSlashInvalid | sources/context.cpp:44-47 | a host starting with `/` (as in `gemini:///foo.bar:1965/...`) is refused (see also test/test_gemini_request.cpp:112-120) |
| CppContext.SplitQueryOf | sources/context.cpp:97-107 | a path and a query are cut apart where they were joined |
| CppContext.AsWrittenNoPort | sources/context.cpp:67-120 | host, path and query without a port come back as they were put together, with port 0; the scheme decides validity only when both a path and a query are present (see also test/test_gemini_request.cpp:5-15, 29-39, 53-63, 77-87) |
| CppContext.AsWrittenWithPort | sources/context.cpp:40-66 | the same with a decimal port, which is read back (see also sources/context.cpp:97-120; test/test_gemini_request.cpp:17-27, 41-51, 65-75, 89-99) |
| CppContext.SchemeUncheckedAsWritten | sources/context.cpp:50-62 | as written a non-`gemini` scheme is accepted unless both a path and a query are present; the corrected parser refuses it (see also sources/context.cpp:68-87, 101-102) |
| CppContext.ColonInPathAsWritten | sources/context.cpp:38-49 | as written `gemini://foo.bar/a:b` gets the host `foo.bar/a`; the corrected parser keeps `/a:b` as the path |
| CppContext.SlashInQueryAsWritten | sources/context.cpp:68-96 | as written `gemini://foo.bar?a/b` gets the host `foo.bar?a` and the path `/b`; the corrected parser keeps `?a/b` as the query |
| CppContext.AuthorityEnd | sources/context.cpp:49-52 | the corrected end of the host and port: the first `/` or `?`, or the end (see also sources/context.cpp:68-70) |
| CppContext.HostPort | sources/context.cpp:38-48 | the corrected host ends at the first `:` of the authority and holds none |
| CppContext.AfterSchemeFixed | sources/context.cpp:36-120 | the corrected parser: a host free of `:`, `/` and `?`, a path up to the query, a query from `?`, valid exactly when the host is not empty and the scheme is `gemini` |
| CppContext.FixedJoins | sources/context.cpp:36-120 | the corrected parser loses nothing: the authority, path and query put back together give the text |
| CppContext.ParseFixed | sources/context.cpp:30-35 | the corrected constructor also refuses a line without `://` |
| CppContext.AuthorityEndOf | sources/context.cpp:49-52 | an authority free of `/` and `?` ends where the path or query after it begins (see also sources/context.cpp:68-70) |
| CppContext.FixedAuthority | sources/context.cpp:36-120 | after such an authority, the path and the query are taken apart as they were put together |
| CppContext.FixedParts | sources/context.cpp:67-120 | a well-formed request without a port parses into its parts |
| CppContext.FixedPortParts | sources/context.cpp:40-66 | a well-formed request with a decimal port parses into its parts |
| CppContext.AgreeOnGemini | sources/context.cpp:8-120 | on well-formed `gemini` requests without stray `:` or `/`, the code as written and the corrected parser agree and return the parts (see also test/test_gemini_request.cpp:5-99) |
| CppContext.NameInjective | sources/context.cpp:123-131 | two requests get the same name only when host, port (0 counting as 1965) and path agree |
| CppContext.NameDefaultPort | sources/context.cpp:124-127 | a request without a port is named with 1965 |
| CppContext.ClientContext.Close | sources/context.cpp:155-157 | closing hands the context back to its manager: deleted exactly when still registered, and no longer registered after |
| CppContext.ContextManager.AddContext | sources/context.cpp:139-141 | the context is added to the set |
| CppContext.ContextManager.CloseContext | sources/context.cpp:133-137 | a context is deleted exactly when it was registered, and is then removed |
| CppContext.ContextManager.Destroy | sources/context.cpp:143-147 | the destructor deletes exactly the contexts still registered |
| CppContext.CloseTwice | sources/context.cpp:133-137 | a context closed twice is deleted once |
| Bytes.Min | sources/util.cpp:34 | the number of bytes `read` copies is the smaller of the request and what is unread |
| CppBufferPipe.SplitAt | sources/util.cpp:29 | bytes appended after the unread ones can be cut off again where the unread ones end |
| CppBufferPipe.CopyInto | sources/util.cpp:29 | `memcpy` overwrites exactly the target range and leaves the rest of the array alone (see also sources/util.cpp:36) |
| CppBufferPipe.MoveDown | sources/util.cpp:16 | `memmove` down to the front puts the unread bytes first and leaves the bytes after them alone (see also sources/util.cpp:24) |
| CppBufferPipe.BufferPipe.Contents | shared/gemcaps/util.hpp:108-114 | the unread bytes are `length` bytes from `start` |
| CppBufferPipe.BufferPipe.constructor | shared/gemcaps/util.hpp:119-121 | `BufferPipe()` starts open and empty, with size 0 |
| CppBufferPipe.BufferPipe.WithSize | shared/gemcaps/util.hpp:127-129 | `BufferPipe(size)` starts open and empty with a buffer of `size` bytes |
| CppBufferPipe.BufferPipe.Ready | shared/gemcaps/util.hpp:133 | `ready()` is the number of unread bytes (see also shared/util.hpp:42) |
| CppBufferPipe.BufferPipe.Peek | shared/util.hpp:44-52 | a view of the unread bytes, as many as `ready()` |
| CppBufferPipe.BufferPipe.Close | shared/gemcaps/util.hpp:138 | `close()` sets the flag and keeps the unread bytes |
| CppBufferPipe.BufferPipe.Grow | sources/util.cpp:13-20 | the growth branch moves the unread bytes, unchanged, to the front of a new buffer of `length + len` bytes, leaving `size` as it was |
| CppBufferPipe.BufferPipe.Compact | sources/util.cpp:22-26 | the compaction branch moves the unread bytes, unchanged, to the front of the same buffer |
| CppBufferPipe.BufferPipe.WriteUnchecked | sources/util.cpp:12-31 | `write` as written appends the bytes after the unread ones, whether or not the pipe is closed |
| CppBufferPipe.BufferPipe.Write | shared/gemcaps/util.hpp:89-95 | `write` as the interface promises: a closed pipe keeps its bytes, an open one appends the new bytes (see also sources/util.cpp:12-31) |
| CppBufferPipe.BufferPipe.ReadAsWritten | sources/util.cpp:33-39 | `read` as written copies the smaller of `len` and `length` unread bytes into `dest`, moves `start` past them and leaves `length` as it was |
| CppBufferPipe.BufferPipe.Read | shared/gemcaps/util.hpp:36-44 | `read` as intended copies the same bytes and they are no longer unread (see also sources/util.cpp:33-39) |
| CppBufferPipe.WriteThenRead | test/test_util.cpp:10-23 | bytes written come back out in order, and a read large enough empties the pipe |
| CppBufferPipe.WriteAfterClose | test/test_util.cpp:25-38 | after `close` a write adds nothing; the code as written adds every byte |
| CppBufferPipe.ReadAfterClose | test/test_util.cpp:40-60 | bytes written before `close` are still there after it, and reading them all empties the pipe |
| CppBufferPipe.ReadAllAsWritten | sources/util.cpp:33-39 | as written, reading every unread byte leaves `ready()` where it was (see also test/test_util.cpp:53-56) |
| CppAllocator.ChunkSlots | shared/gemcaps/util.hpp:192-196 | the slots of one chunk, in address order, as many as `alloc_size` |
| CppAllocator.StackSlots | shared/gemcaps/util.hpp:157-161 | the slots of the `stack` array, in address order |
| CppAllocator.Nulls | shared/util.hpp:86-87 | `avail(alloc_size)` holds `alloc_size` null pointers |
| CppAllocator.Covers | shared/gemcaps/util.hpp:200-205 | a chunk whose free list holds `alloc_size` distinct slots of its own has all of them free, so giving it back frees no slot in use |
| CppAllocator.ReusableAllocator.constructor | shared/gemcaps/util.hpp:157-161 | a new allocator has every stack slot free, in address order, nothing in use and no chunk |
| CppAllocator.ReusableAllocator.Allocate | shared/gemcaps/util.hpp:177-199 | `allocate` never hands out a null pointer or a slot in use and records it in use; it takes the last free stack slot, else the last free slot of a live chunk, else the last slot of a new chunk (see also test/test_util.cpp:62-83) |
| CppAllocator.ReusableAllocator.NewChunk | shared/gemcaps/util.hpp:192-197 | a new chunk gets a fresh number and all its slots free, in address order |
| CppAllocator.ReusableAllocator.PopChunk | shared/gemcaps/util.hpp:184-190 | the last free slot of a chunk is handed out, was not in use, and leaves that chunk's free list |
| CppAllocator.ReusableAllocator.Deallocate | shared/gemcaps/util.hpp:207-228 | a stack slot in use goes back on the stack's free list; a heap slot in use goes back on its chunk's list, and a chunk with every slot free is given back; anything else changes nothing |
| CppAllocator.ReusableAllocator.ReleaseHeap | shared/gemcaps/util.hpp:214-226 | the heap branch of `deallocate` |
| CppAllocator.StackPreferred | test/test_util.cpp:85-115 | with the stack and a chunk used up, giving back a stack slot and a heap slot and allocating twice yields the stack slot first, then the heap slot |
| CppAllocator.GiveBack | test/test_util.cpp:111-113 | after giving both back, each is the only free slot of its kind |
| CppAllocator.LegacyAllocator.AsWritten | shared/util.hpp:86-91 | as written the free list starts with `alloc_size` null pointers, then the stack slots |
| CppAllocator.LegacyAllocator.constructor | shared/util.hpp:86-91 | as intended only the stack slots are free |
| CppAllocator.LegacyAllocator.Allocate | shared/util.hpp:106-119 | the last free slot is handed out, a new chunk being added first when none is free; with an intended start, never a null pointer or a slot in use |
| CppAllocator.LegacyAllocator.AddChunk | shared/util.hpp:113-117 | a new chunk's slots become free in address order and the chunk is remembered |
| CppAllocator.LegacyAllocator.Take | shared/util.hpp:107-111 | the last free slot is handed out and recorded in use |
| CppAllocator.LegacyAllocator.Deallocate | shared/util.hpp:128-136 | a slot in use becomes free again and the next handed out; anything else is ignored |
| CppAllocator.NullAfterStack | shared/util.hpp:86-91 | as written the first `alloc_size` allocations give the stack slots in reverse order and the next one a null pointer (see also shared/util.hpp:106-111) |
| CppAllocator.NoNullWhenFixed | shared/util.hpp:86-136 | with the intended start, no sequence of calls hands out a null pointer |
| CppStringLiteral.Reverse | shared/gemcaps/stringutil.hpp:70-75 | the characters in the opposite order, as the copy loop of `append(int)` reads `valbuf` |
| CppStringLiteral.ReverseSnoc | shared/gemcaps/stringutil.hpp:58-61 | a digit produced last comes first once reversed |
| CppStringLiteral.DigitCount | shared/gemcaps/stringutil.hpp:52 | a number below `10^k` has at most `k` digits |
| CppStringLiteral.Power10 | shared/gemcaps/stringutil.hpp:52 | powers of ten are positive |
| CppStringLiteral.ReversedDecimal | shared/gemcaps/stringutil.hpp:50-68 | the first half of `append(int)` leaves in `valbuf` the decimal form of the value, sign included, back to front |
| CppStringLiteral.PutAt | shared/gemcaps/stringutil.hpp:59 | one store after the first `count` characters changes only that place (see also shared/gemcaps/stringutil.hpp:65) |
| CppStringLiteral.ReversedDigits | shared/gemcaps/stringutil.hpp:58-61 | the do-while loop leaves the digits of the value, last first, one at least for 0 |
| CppStringLiteral.DecimalHasNoNul | shared/gemcaps/stringutil.hpp:50-77 | the decimal form holds no NUL, so it does not cut the string short |
| CppStringLiteral.DigitStep | shared/gemcaps/stringutil.hpp:59-60 | one pass moves the last digit of the value from the digits still to produce to those produced |
| CppStringLiteral.StringLiteral.Text | shared/gemcaps/stringutil.hpp:12 | the string held is the characters before the first NUL, at most `Size` of them |
| CppStringLiteral.StringLiteral.constructor | shared/gemcaps/stringutil.hpp:12 | a new literal holds the empty string |
| CppStringLiteral.StringLiteral.Length | shared/gemcaps/stringutil.hpp:19-23 | `length()` is the length of the string held |
| CppStringLiteral.StringLiteral.Append | shared/gemcaps/stringutil.hpp:30-38 | `append(text)` puts the characters of `text` up to its NUL after the string held |
| CppStringLiteral.StringLiteral.AppendLiteral | shared/gemcaps/stringutil.hpp:40-43 | appending a literal adds the string it held, also when it is this literal itself |
| CppStringLiteral.StringLiteral.AppendDecimal | shared/gemcaps/stringutil.hpp:50-77 | `append(int)`, given a digit buffer with room, adds the decimal form of the value |
| CppStringLiteral.StringLiteral.PutReversed | shared/gemcaps/stringutil.hpp:70-76 | the copy loop adds the first `count` characters of `valbuf` in reverse, then a terminator |
| CppStringLiteral.StringLiteral.AppendInt | shared/gemcaps/stringutil.hpp:50-77 | as written, with 10 characters of `valbuf`, the decimal form is added for every value whose form fits in ten characters (see also test/test_stringutil.cpp:6-10, 19-24) |
| CppStringLiteral.StringLiteral.AppendIntFixed | shared/gemcaps/stringutil.hpp:50-77 | with an 11-character `valbuf` every `int` but `INT_MIN` is added in decimal |
| CppStringLiteral.IntFitsEleven | shared/gemcaps/stringutil.hpp:52-68 | a sign and ten digits are the longest decimal form of an `int` other than `INT_MIN` |
| CppStringLiteral.ValbufTooShort | shared/gemcaps/stringutil.hpp:52 | `-1000000000` is an `int` whose decimal form needs eleven characters, one more than `valbuf` holds (see also shared/gemcaps/stringutil.hpp:64-65) |
| CppStringLiteral.DigitCountLow | shared/gemcaps/stringutil.hpp:52 | a number of at least `10^k` has more than `k` digits |
| CppStringLiteral.TestStr | test/test_stringutil.cpp:12-17 | `testStr(text)` gives `"test "` followed by `text` (see also test/test_stringutil.cpp:26-28) |
| CppStringLiteral.TestNum | test/test_stringutil.cpp:6-10 | `testNum(v)` gives the decimal form of `v` (see also test/test_stringutil.cpp:19-24) |
| CppHandler.CodesMatchResponses | shared/gemcaps/handler.hpp:15-31 | every `RES_*` constant is the status code the Rust server gives the response of the same meaning |
| CppHandler.CDiv | shared/gemcaps/handler.hpp:59 | C's `/`, rounding toward zero, agrees with Euclidean division on non-negative operands |
| CppHandler.CMod | shared/gemcaps/handler.hpp:59-60 | C's `%` agrees with the Euclidean remainder on non-negative operands and lies strictly between `-b` and `b` |
| CppHandler.DigitOf | shared/gemcaps/handler.hpp:59-60 | `'0' + d` is never NUL, also for the negative digits C's `%` makes |
| CppHandler.HeaderLine | shared/gemcaps/handler.hpp:57-68 | the line `responseHeader` writes is the meta text with five characters added |
| CppHandler.StringLength | shared/gemcaps/handler.hpp:33-37 | `string_length` counts the characters before the NUL |
| CppHandler.StringCopy | shared/gemcaps/handler.hpp:39-46 | `string_copy` writes the text of `src` and a NUL from `at` on and leaves the rest of `dest` alone |
| CppHandler.CopyStart | shared/gemcaps/handler.hpp:40-41 | before the loop nothing has been copied |
| CppHandler.CopyStep | shared/gemcaps/handler.hpp:41-44 | one turn of the copy loop stores the next character |
| CppHandler.CopyEnd | shared/gemcaps/handler.hpp:45 | the terminator is stored after the whole text |
| CppHandler.Put | shared/gemcaps/handler.hpp:59-66 | one store into the array changes only that place |
| CppHandler.ResponseHeader | shared/gemcaps/handler.hpp:57-68 | the status's tens and units digits, a space, the meta text, CR LF and a NUL are written at the front of the buffer, and nothing after them changes |
| CppHandler.HeaderText | shared/gemcaps/handler.hpp:57-68 | read back as a C string the buffer holds exactly the header line |
| CppHandler.HeaderOfCode | shared/gemcaps/handler.hpp:57-68 | for a two-digit status the line is `<code> <meta>\r\n` |
| CppHandler.SameHeaderAsRust | shared/gemcaps/handler.hpp:57-68 | for every response, the C++ line with its code and meta is the header the Rust server writes for it |
| CppHandler.HeaderReadsBack | shared/gemcaps/handler.hpp:57-68 | a client parsing the line gets the two-digit status and the meta text back |
| CppHandler.HeaderDigits | shared/gemcaps/handler.hpp:59-60 | for a two-digit status the C arithmetic writes its tens and its units |
| CppHandler.PairOfDigits | shared/gemcaps/handler.hpp:59-60 | two digits written out read back as their value |
| CppHandler.Framed | shared/gemcaps/handler.hpp:57-68 | the meta text is what lies between the three-character front and CR LF |
| CppHandler.LastTwoDigits | shared/gemcaps/handler.hpp:59-60 | only the last two digits of a non-negative status are written, so `120` is written as `20` |
| CppHandler.DivTen | shared/gemcaps/handler.hpp:59-60 | quotient and remainder by ten are the only pair that rebuilds the number |
| CppAnsi.ColorValue | shared/gemcaps/log.hpp:16-25 | each colour's value is below 8, so a colour parameter is `30`-`37` or `40`-`47` |
| CppAnsi.StyleValue | shared/gemcaps/log.hpp:26-31 | each style's value is below 8 |
| CppAnsi.Decimals | shared/gemcaps/log.hpp:33-53 | the decimal form of each SGR parameter, in order |
| CppAnsi.GetColor | shared/gemcaps/log.hpp:33-45 | `getColor` builds `ESC [`, 30 or 40 plus the colour, then `;1m` when bold and `m` otherwise |
| CppAnsi.GetStyle | shared/gemcaps/log.hpp:47-53 | `getStyle` builds `ESC [`, the style's value and `m` |
| CppAnsi.ColorIsSgr | shared/gemcaps/log.hpp:33-45 | the colour text is the SGR sequence with the colour's parameter, then `1` when bold, and fits the 8 characters of the literal |
| CppAnsi.StyleIsSgr | shared/gemcaps/log.hpp:47-58 | the style text is the SGR sequence with the style's parameter; `reset` is `ESC [0m` |
| CppAnsi.ModesOrdered | shared/gemcaps/log.hpp:69-75 | the log levels grow with verbosity, so `is_enabled(m)` holds for every level up to the current mode (see also sources/log.cpp:29-31) |
| CppParams.Insert | sources/params.cpp:22 | `result.insert` binds a new name and leaves a name already present with its first value (see also sources/params.cpp:35, 43) |
| CppParams.CollectKeys | sources/params.cpp:8-48 | the names bound are exactly the names of the pairs inserted |
| CppParams.CollectFirst | sources/params.cpp:22 | a name is bound to the value of its first pair (see also sources/params.cpp:35, 43) |
| CppParams.CollectSwap | sources/params.cpp:8-48 | two neighbouring pairs for different names may come in either order |
| CppParams.SwapLast | sources/params.cpp:8-48 | the same for the last two pairs |
| CppParams.Snoc | sources/params.cpp:22 | one pair more is one insertion more (see also sources/params.cpp:35, 43) |
| CppParams.Zip | sources/params.cpp:39-44 | the i-th positional value goes to the i-th positional name |
| CppParams.Step | sources/params.cpp:11-45 | one pair produced by a turn of the loop is inserted after the earlier ones |
| CppParams.ArgParse.ScanMixed | test/test_params.cpp:34-48 | `--test bar yeet -t2 foo` yields, in order, `test`, `cheese` and `test2` with their values |
| CppParams.ArgParse.constructor | includes/params.hpp:9-13 | a new parser has no names registered |
| CppParams.ArgParse.AddArg | includes/params.hpp:15 | `addArg` adds one positional name at the end |
| CppParams.ArgParse.AddParam | includes/params.hpp:16 | `addParam(param)` registers the long name |
| CppParams.ArgParse.AddShortParam | includes/params.hpp:17-20 | `addParam(param, short)` registers the long name and the alias, a taken alias keeping its long name |
| CppParams.ArgParse.Scan | sources/params.cpp:8-45 | every pair produced names a registered parameter or positional name, and there are no more pairs than tokens |
| CppParams.ArgParse.ParseArgs | sources/params.cpp:8-48 | the loop of `parseArgs` computes `Parse`: the map of the pairs `Scan` produces, or the error it stops at |
| CppParams.ArgParse.ParseArgv | sources/params.cpp:50-56 | the array form parses the first `nargs` strings (see also test/test_params.cpp:6-18) |
| CppParams.ArgParse.PositionalOnly | sources/params.cpp:39-44 | without flags the values bind to the positional names in order, and one value too many is an error (see also test/test_params.cpp:6-18) |
| CppParams.ArgParse.FlagMovesFreely | sources/params.cpp:13-24 | a long flag with its value may come before or after a positional value with the same outcome, unless the flag names that positional name (see also sources/params.cpp:39-44) |
| CppParams.ArgParse.FlagWithoutValue | sources/params.cpp:18-21 | a known flag that is the last token reports its missing value (see also sources/params.cpp:31-34) |
| CppParams.ArgParse.FlagsThenLast | sources/params.cpp:13-38 | known flags with their values before it do not change that |
| CppParams.ParamsAndArgs | test/test_params.cpp:34-48 | the mixed test binds `test` to `bar`, `test2` to `foo` and `cheese` to `yeet` |
| CppParams.CollectMixed | test/test_params.cpp:44-47 | the three pairs of the mixed test make the expected map |
| CppExecutor.Position | sources/executor.cpp:19-26 | a position found holds the character searched for |
| CppExecutor.PositionIs | sources/executor.cpp:19-26 | the search finds the first occurrence, and finds none only when there is none |
| CppExecutor.StrFind | sources/executor.cpp:19-26 | the loop of `strfind` returns the first position of the character before the terminator, or `npos` |
| CppExecutor.Assignments | sources/executor.cpp:53-55 | one `key=value` per variable, in the map's iteration order |
| CppExecutor.Terminated | sources/executor.cpp:52-56 | the stream collects every piece followed by a CR (see also sources/executor.cpp:89-93) |
| CppExecutor.CopyText | sources/executor.cpp:58 | `strcpy` copies the characters before the first NUL, the whole text when it holds none (see also sources/executor.cpp:95) |
| CppExecutor.Ends | sources/executor.cpp:64-72 | the CRs the splitting loop overwrites: at most one per pass |
| CppExecutor.EndsOrdered | sources/executor.cpp:64-72 | those positions are CRs, in increasing order, from where the search starts |
| CppExecutor.Fields | sources/executor.cpp:64-72 | each field runs from the end of the one before to the CR that closes it |
| CppExecutor.Cuts | sources/executor.cpp:64-72 | the loop makes at most one field per pass |
| CppExecutor.Mark | sources/executor.cpp:71 | each overwritten CR becomes a NUL and nothing else changes |
| CppExecutor.Marked | sources/executor.cpp:64-72 | the buffer after the loop is the text, as long as before |
| CppExecutor.Pointers | sources/executor.cpp:66 | the table holds a pointer to the start of each field (see also sources/executor.cpp:102) |
| CppExecutor.Garbages | sources/executor.cpp:59 | the slots of `new char*[...]` the loop does not reach hold no known pointer (see also sources/executor.cpp:96) |
| CppExecutor.TableOf | sources/executor.cpp:59-73 | a table built correctly has one slot more than the count: pointers, then the terminator |
| CppExecutor.Visible | sources/executor.cpp:143-144 | the child reads the pointers before the first null pointer and nothing after |
| CppExecutor.Argv | sources/executor.cpp:77-87 | the arguments are kept, or get the interpreter that `programs` names for the extension in front |
| CppExecutor.PositionFromDrop | sources/executor.cpp:65-67 | a search in the C string from `buf + pos` finds the first CR after `pos` |
| CppExecutor.Search | sources/executor.cpp:67 | one pass searches the buffer as the earlier passes left it and finds the next CR |
| CppExecutor.CutAt | sources/executor.cpp:67-71 | a pass finds the next CR and overwrites exactly it with NUL |
| CppExecutor.SplitFields | sources/executor.cpp:61-72 | the loop leaves the CRs it found overwritten, a pointer per field in the table, and the rest of the buffer and table alone (see also sources/executor.cpp:98-108) |
| CppExecutor.Passes | sources/executor.cpp:64-72 | the loop's passes overwrite the CRs of `Ends` and store the pointers of their fields |
| CppExecutor.Turn | sources/executor.cpp:64-72 | one turn either ends the loop in its final state or keeps its invariant with one pass more |
| CppExecutor.PassStep | sources/executor.cpp:65-71 | a pass stores the pointer to the rest in its slot and overwrites the next CR |
| CppExecutor.Done | sources/executor.cpp:64-73 | the loop's final state: the CRs overwritten, the pointers stored, the later slots untouched |
| CppExecutor.SetSlot | sources/executor.cpp:66 | a store into the table changes only that slot (see also sources/executor.cpp:73) |
| CppExecutor.Pass | sources/executor.cpp:65-71 | a pass that finds a CR closes the field that starts where it began |
| CppExecutor.Finish | sources/executor.cpp:64-72 | at the end every CR the loop overwrites is a NUL |
| CppExecutor.Copy | sources/executor.cpp:57-58 | with room for the terminator the buffer receives the text up to its first NUL and a NUL |
| CppExecutor.Fill | sources/executor.cpp:52-72 | with such a buffer the table of `n + 1` slots receives a pointer per field and the slot after them is set |
| CppExecutor.Build | sources/executor.cpp:52-73 | with the terminator stored in its own table the table is `TableOf` the text |
| CppExecutor.BuildCrossed | sources/executor.cpp:52-109 | as written, the argument table's terminator lands in the environment table at the argument count, and the argument table keeps its last slot set |
| CppExecutor.Executor.constructor | sources/executor.cpp:46-110 | as intended each table holds one pointer per entry and then a null pointer, and the working directory is the directory of the script |
| CppExecutor.Executor.AsWritten | sources/executor.cpp:46-110 | as written the environment table gets a null pointer at the argument count, and the argument table has none |
| CppExecutor.Executor.Spawn | sources/executor.cpp:134-155 | a live child is stopped first, the child is alive afterwards exactly when `uv_spawn` succeeds, and a new handle keeps the `data` its allocator slot held |
| CppExecutor.Executor.Signal | sources/executor.cpp:157-161 | a signal reaches the child only while it is alive |
| CppExecutor.Executor.OnExitAsWritten | sources/executor.cpp:29-44 | as written the exit callback gives the handle back when its `data` is null, reads an indeterminate pointer when the slot held one, and marks the child no longer alive only when `data` points at the executor |
| CppExecutor.Executor.Attach | sources/executor.cpp:134-155 | the store of the executor into the handle's `data`, which `spawn` lacks: afterwards the callback can find the executor |
| CppExecutor.Executor.OnExit | sources/executor.cpp:29-44 | as intended, once the handle points at its executor, the exit callback marks the child no longer alive |
| CppExecutor.ExitAsWrittenLeavesAlive | sources/executor.cpp:29-44 | as written a spawned child is still alive after its exit callback, and the handle is given back exactly when its slot held null |
| CppExecutor.ExitIntendedStopsChild | sources/executor.cpp:29-44 | with the handle pointing at its executor, a spawned child is no longer alive after its exit callback |
| CppExecutor.Executor.Destroy | sources/executor.cpp:112-132 | the destructor stops a live child and clears its handle's `data`, and otherwise gives back the process handle when one was taken |
| CppExecutor.Shifted | sources/executor.cpp:65 | positions shifted by an offset |
| CppExecutor.EndsAppend | sources/executor.cpp:64-72 | the CRs of a text are found at the same places after a prefix |
| CppExecutor.CutsOfTerminated | sources/executor.cpp:52-72 | texts free of CR, each followed by a CR, are cut back into those texts |
| CppExecutor.FirstEnd | sources/executor.cpp:64-72 | the first CR closes the first piece, the others are those of the rest |
| CppExecutor.PieceAt | sources/executor.cpp:64-72 | the `j`-th field is the `j`-th piece |
| CppExecutor.FieldAfter | sources/executor.cpp:64-72 | a later field is the field before it in what follows the first CR |
| CppExecutor.TerminatedHasNoNul | sources/executor.cpp:52-58 | pieces free of NUL give a text free of NUL, which `strcpy` copies whole |
| CppExecutor.FieldAt | sources/executor.cpp:64-72 | each stored pointer reads back its field as a C string |
| CppExecutor.EnvironmentEntries | sources/executor.cpp:51-73 | with keys and values free of CR and NUL the environment table holds one `key=value` per variable |
| CppExecutor.ArgumentEntries | sources/executor.cpp:89-108 | with arguments free of CR and NUL the argument table holds every argument and the child sees all of them |
| CppExecutor.VisiblePointers | sources/executor.cpp:73 | the child reads exactly the pointers before the terminator |
| CppExecutor.InterpreterFirst | sources/executor.cpp:77-87 | a file whose extension names a program runs under that program |
| CppExecutor.NoExtension | sources/executor.cpp:79-80 | a file name without `.` runs itself |
| CppExecutor.NoRoomForTerminator | sources/executor.cpp:57-58 | the buffers are one character short of the terminator `strcpy` writes (see also sources/executor.cpp:94-95) |
| CppExecutor.EnvironmentCutAsWritten | sources/executor.cpp:109 | the misplaced terminator hides from the child every variable from the argument count on |
| CppExecutor.ArgumentsUnterminatedAsWritten | sources/executor.cpp:96-109 | the argument table as written holds no null pointer, so the child reads past its end |
| CppExecutor.Converted | sources/executor.cpp:170-176 | the pairs read before the first one that does not convert to strings |
| CppExecutor.Texts | sources/executor.cpp:172 | each pair converted to its two strings |
| CppExecutor.LoadStep | sources/executor.cpp:171-173 | converting one more pair inserts it unless its key is already there |
| CppExecutor.ProgramsSnoc | sources/executor.cpp:172 | one more entry is one insertion more |
| CppExecutor.ProgramFor | sources/executor.cpp:171-173 | each extension maps to the value of its first occurrence |
| CppExecutor.ProgramKeys | sources/executor.cpp:171-173 | the table's extensions are exactly the keys of the settings |
| CppExecutor.ProgramTable.constructor | sources/executor.cpp:16-17 | the table starts empty |
| CppExecutor.ProgramTable.Load | sources/executor.cpp:163-177 | the table is emptied; a non-map setting fails; otherwise pairs are inserted up to the first that does not convert, which fails |
| CppCache.Stored | sources/cache.cpp:117-125 | after `add` the entry is loaded, not loading, holds the data, has no callbacks left, runs a timer of the data's lifetime exactly when that is not 0, and counts the body's bytes |
| CppCache.Calls | sources/cache.cpp:63-65 | one call per queued callback, in order, each given the data |
| CppCache.EvictsUnique | sources/cache.cpp:76-90 | the entry `_remove_old_cache` picks is determined by the cache |
| CppCache.TotalRemove | sources/cache.cpp:132-140 | the bytes the loaded entries count split off any one entry |
| CppCache.TotalUpdate | sources/cache.cpp:117-119 | replacing or adding an entry changes the total by the difference of what the two count |
| CppCache.TotalErase | sources/cache.cpp:138 | dropping an entry lowers the total by what it counted |
| CppCache.Cache.constructor | sources/cache.cpp:110-126 | a new cache is empty, counts 0 bytes and keeps its budget |
| CppCache.Cache.IsLoading | sources/cache.cpp:156-161 | `isLoading` is false for an unknown name and the entry's flag otherwise |
| CppCache.Cache.IsLoaded | sources/cache.cpp:163-168 | `isLoaded` is false for an unknown name and the entry's flag otherwise |
| CppCache.Cache.Get | sources/cache.cpp:170-172 | `get` gives the entry's data, and nothing for an unknown name, where `map::at` throws |
| CppCache.Cache.Loading | sources/cache.cpp:104-108 | the entry exists afterwards, loading and not loaded, with no timer; `size` is not changed |
| CppCache.Cache.Invalidate | sources/cache.cpp:132-140 | the entry is gone and `size` drops by its bytes when it was loaded; an unknown name changes nothing |
| CppCache.Cache.Timeout | sources/cache.cpp:17-22 | a timer firing invalidates exactly its own entry (see also sources/cache.cpp:69-72, 92-94) |
| CppCache.Cache.Names | sources/cache.cpp:82 | the entries' names in the map's key order, each once |
| CppCache.Cache.RemoveOldCache | sources/cache.cpp:76-90 | an empty cache is left alone; otherwise the entry with the least time left, the first in key order on a tie, is invalidated |
| CppCache.Cache.SetLoaded | sources/cache.cpp:60-67 | every queued callback is called once, in order, with the data, and the queue is emptied |
| CppCache.Cache.Store | sources/cache.cpp:117-125 | the entry holds the data, `size` grows by its bytes, and the callbacks queued on it are called |
| CppCache.Cache.MakeRoom | sources/cache.cpp:112-116 | with a budget, entries are evicted in eviction order until the new bytes fit; it never ends when the cache runs empty first |
| CppCache.Cache.Add | sources/cache.cpp:110-126 | `add` as written evicts as above, then stores the data, grows `size` by its bytes without taking off what the entry held before, and the name is loaded with that data |
| CppCache.Cache.AddCorrected | sources/cache.cpp:110-126 | `add` as intended leaves the name loaded with the data, evicts only in eviction order, and keeps `size` equal to the loaded entries' bytes |
| CppCache.Cache.LoadingCorrected | sources/cache.cpp:104-108 | `loading` as intended keeps `size` equal to the loaded entries' bytes |
| CppCache.Cache.Clear | sources/cache.cpp:128-130 | `clear` as written drops every entry and leaves `size` |
| CppCache.Cache.ClearCorrected | sources/cache.cpp:128-130 | `clear` as intended also sets `size` to 0 |
| CppCache.Cache.GetNotified | sources/cache.cpp:142-154 | an unknown name gives false; a loaded entry calls back at once; otherwise the callback is queued |
| CppCache.ReAddLeaks | sources/cache.cpp:110-140 | adding a name twice and invalidating it leaves an empty cache that still counts the first copy's bytes |
| CppCache.ReAddCorrected | sources/cache.cpp:110-140 | with the corrected `add` the same calls leave `size` at 0 |
| CppCache.ReloadLeaks | sources/cache.cpp:104-108 | marking a loaded entry as loading and invalidating it leaks its bytes the same way (see also sources/cache.cpp:132-140) |
| CppCache.ClearThenAddHangs | sources/cache.cpp:112-116 | after `clear` the old byte count makes `add` of a body that fits the budget loop forever on an empty cache (see also sources/cache.cpp:128-130) |
| CppCache.OversizeHangs | sources/cache.cpp:112-116 | a body larger than the budget makes `add` loop forever |
| CppCache.WithEntry | sources/cache.cpp:96-102 | `_get` leaves every entry as it was and adds a fresh one, neither loading nor loaded, only for a name that was absent |
| CppSgi.ApplyHeader | sources/gsgi.c:48-69 | the field the key names takes the value, numbers through `atoi`; every other field is unchanged, and any other key changes nothing (see also sources/wsgi.c:24-45) |
| CppSgi.Header | sources/gsgi.c:89-97 | a line is a header exactly when it holds a `:` that is not its first character; the key, stripped and lower-cased, then holds no `:` |
| CppSgi.NoColonKey | sources/gsgi.c:94-96 | stripping and lower-casing bring in no `:` |
| CppSgi.Headers | sources/gsgi.c:83-103 | each line's header, in order |
| CppSgi.Apply | sources/gsgi.c:91-102 | a line that is not a header is skipped |
| CppSgi.Head | sources/gsgi.c:83-88 | the header lines are the lines before the first empty one |
| CppSgi.ParseResponse | sources/gsgi.c:78-106 | the loop of `parse_response` applies each header line in turn to a response of zero fields, up to the first empty line (see also sources/wsgi.c:54-82) |
| CppSgi.FoldAppend | sources/gsgi.c:83-103 | header lines applied in two batches have the effect of all of them |
| CppSgi.Untouched | sources/gsgi.c:79-80 | a field no header names keeps its value, zero or empty for a fresh response (see also sources/gsgi.c:98) |
| CppSgi.FoldInert | sources/gsgi.c:48-69 | lines naming none of the fields change nothing |
| CppSgi.NotHeaders | sources/gsgi.c:89-91 | a line without `:`, or starting with one, changes nothing wherever it appears |
| CppSgi.TrimIdentity | sources/gsgi.c:94-95 | text whose ends are not white space strips to itself |
| CppSgi.AtoiInt | sources/gsgi.c:50 | `atoi` reads back the decimal form `%d` writes |
| CppSgi.IdLine | sources/gsgi.c:42 | the `id: N` line sets the `id` field to `N` (see also sources/gsgi.c:48-52) |
| CppSgi.KeyedLine | sources/gsgi.c:42-45 | a line made of a lower-case word, `: ` and a value has that word as its key and the stripped value (see also sources/gsgi.c:89-96) |
| CppSgi.WordKey | sources/gsgi.c:89-96 | a line starting with a lower-case word and `:` has that word as its key |
| CppSgi.HeaderAt | sources/gsgi.c:89-96 | a line whose first `:` is at `p > 0` splits there, key stripped and lower-cased, value stripped |
| CppSgi.IpKey | sources/gsgi.c:43 | the `ip` line is a header the response parser does not store (see also sources/gsgi.c:48-69) |
| CppSgi.PortKey | sources/gsgi.c:44 | the `port` line likewise (see also sources/gsgi.c:48-69) |
| CppSgi.RequestKey | sources/gsgi.c:45 | the `request` line likewise (see also sources/gsgi.c:48-69) |
| CppSgi.IdKey | sources/gsgi.c:42 | the `id` line sets `id` and nothing else (see also sources/gsgi.c:48-52) |
| CppSgi.RecordSplit | sources/gsgi.c:41-46 | the record `send_request` writes splits into its four lines and two empty ones (see also sources/wsgi.c:17-22) |
| CppSgi.RecordJoin | sources/gsgi.c:41-46 | the record is its lines joined with line breaks |
| CppSgi.RecordReadBack | sources/gsgi.c:41-46 | the record `send_request` writes, read back with `parse_response`, sets exactly the `id` field (see also sources/gsgi.c:78-106; sources/wsgi.c:17-22) |
| CppSgi.RecordHead | sources/gsgi.c:45 | the blank line after `request:` ends the header (see also sources/gsgi.c:85-87) |
| CppSgi.RecordFold | sources/gsgi.c:41-46 | the four record lines set `id` and nothing else (see also sources/gsgi.c:83-103) |
| CppSgi.UntilNul | sources/gsgi.c:144-151 | the characters before the first NUL, all of them when there is none |
| CppSgi.PastNul | sources/gsgi.c:136-139 | what the stream holds after its first NUL, nothing when there is none |
| CppSgi.NulFrame | sources/gsgi.c:136-151 | a body without NUL followed by a NUL reads back, and the stream goes on after the NUL |
| CppSgi.ReadToNul | sources/gsgi.c:136-139 | the reading loops keep, or drop, the characters up to the first NUL or EOF and consume the NUL (see also sources/gsgi.c:144-151) |
| CppSgi.ReadResponse | sources/gsgi.c:117-154 | `read_response` as written gives an empty body for a size of 0 or less, and ignores a positive size, reading up to the first NUL (see also sources/wsgi.c:93-130) |
| CppSgi.UnsizedBodyLost | sources/gsgi.c:126-140 | with no size declared the body `hi` followed by NUL is read as empty |
| CppSgi.ReadResponseCorrected | sources/gsgi.c:117-154 | as its comments say: a positive size reads that many characters, fewer at EOF, then drops up to the next NUL; otherwise it reads up to the first NUL |
| CppSgi.SizedFrame | sources/gsgi.c:126-140 | with the size declared, the corrected reader returns the body the child wrote and drops its terminator |
| CppSgi.Wrap32 | sources/gsgi.c:29-33 | the value reduced to a 32-bit `int`, unchanged when it fits |
| CppSgi.RequestHash | sources/gsgi.c:29-33 | `pid * 31 + id`, exact when it fits an `int` |
| CppSgi.HashDistinct | sources/gsgi.c:29-33 | two requests of one object whose ids are less than 2^32 apart never share a hash (see also sources/gsgi.c:224, 232) |
| CppSgi.SameRemainder | sources/gsgi.c:29-33 | numbers less than 2^32 apart but not equal differ modulo 2^32 |
| CppSgi.Gsgi.constructor | sources/gsgi.c:208-211 | the object `gsgi_create` returns has every field zero |
| CppSgi.Runtime.constructor | sources/gsgi.c:156-160 | the counter starts at 0 and no set exists |
| CppSgi.Runtime.Setup | sources/gsgi.c:173-184 | the counter goes up; exactly the call that makes it 1 returns early, and any other call creates a new, empty set |
| CppSgi.Runtime.Cleanup | sources/gsgi.c:186-204 | the counter goes down, wrapping below 0; on reaching 0 every pending request is destroyed with the set |
| CppSgi.Runtime.Create | sources/gsgi.c:206-212 | `gsgi_create` runs the setup and returns a zeroed object |
| CppSgi.Runtime.Destroy | sources/gsgi.c:214-219 | `gsgi_destroy` runs the cleanup |
| CppSgi.Runtime.ProcessRequest | sources/gsgi.c:221-235 | the object's request id goes up by one, the request joins the set under its hash when the set exists, and the cleanup runs |
| CppSgi.FirstRequestUsesMissingSet | sources/gsgi.c:173-177 | the first object's setup returns before creating the set, so its first request goes to a set that does not exist (see also sources/gsgi.c:221-235) |
| CppSgi.Inc | sources/gsgi.c:174 | `++` on an `unsigned int` wraps from the largest value to 0 |
| CppSgi.Dec | sources/gsgi.c:187 | `--` on an `unsigned int` wraps from 0 to the largest value |
| CppSgi.CounterRoundTrip | sources/gsgi.c:174 | a setup undone by a cleanup, or the other way round, leaves the counter as it was (see also sources/gsgi.c:187) |
| CppSgi.CleanupFirstWraps | sources/gsgi.c:186-191 | a cleanup with no setup before it wraps the counter to its largest value, so the set is never destroyed |

## Left out

- Network and TLS plumbing (sockets, rustls, wolfSSL, libuv servers) and sources/gemini.c, which reads from the TLS stream, are not part of this model.
- Concurrency (tokio tasks, the log file mutex, the gsgi semaphore) is not modelled; every operation runs alone.
- Process spawning, filesystem access and clocks are parameters. A child process is an exit status and its output, the filesystem is a snapshot map, and time is integer ticks.
- The `f32` lifetimes of src/cache.rs and src/capsule/files.rs are integer ticks. The `u32` entry count of the Rust cache is unbounded.
- `Regex::new`/`is_match`, `gemini::Request::new`, `pathutil::splitext`, `abspath` and `OsStr::to_str` are function parameters with no invented bodies. Percent-encoding is modelled directly, per section 2.1 of RFC 3986.
- YAML/TOML loading, `load_capsule`/`load_capsules`, settings, loaders, managers and main programs are not part of this model. yaml-cpp nodes appear only as the `Node` values the executor converts.
- The stream output of sources/log.cpp is not modelled beyond the mode ordering. Stub handlers, the MIME tables, includes/handler.hpp and the header-only declarations are not part of this model either.
- includes/cache.hpp does not match sources/cache.cpp. The cache is modelled from sources/cache.cpp alone.
- shared/util.hpp's `BufferPipe::write`/`read` are the same code as sources/util.cpp. They are modelled once.
- Strings.IsSpace: it is ASCII `isspace`. Rust's `trim` and the `\s+` split of src/capsule/cgi.rs (lines 117 and 148) also treat non-ASCII Unicode spaces as whitespace. The model does not.
- RustCgi.FindCgiFile: `env::current_dir()?` errors are not modelled. The search starts below the CGI root with the corrected join; the escape through `Path::join` is stated by RustCgi.DoubleSlashAsWritten.
- RustFile.CleanPath: `clean_path` joins the raw request path. A `..` component stays in the joined path, so the snapshot key for `/a/../b` is unrelated to the one for `/b`, and the redirect decision on such paths is only as good as the snapshot's own keys. The method also uses the corrected join (`RustFs.Below`) instead of `Path::join`. The as-written join is stated by RustFile.DoubleSlashAsWritten.
- RustFile.ProcessFileRequest: computes `FileReply` with the corrected join. Its contract states the traversal case outright, and the other cases come from the lemmas about `Clean` and `FileReply`. The panic on `/` under a missing root is kept as written (RustFile.MissingRootPanics); no version without it is modelled.
- RustFiles.Serve: computes `Reply` with the corrected join; the as-written join is stated by RustFiles.DoubleSlashAsWritten.
- CppPath.Basename: requires `HasName`, a non-empty path. `path.back()` on an empty string is undefined behaviour in C++, so there is nothing to model there.
- CppSgi.ApplyHeader: a `meta` value longer than 1024 characters overflows the `strcpy` into `char[1025]`. The function requires the value to fit, and `ParseResponse` requires `AllFit` of its header lines; the overflow itself is left out.
- CppSgi.ParseResponse: the model reads a response as a list of lines. `fscanf` with `"%2048[^\n]\n"` skips every run of whitespace after a line, the blank line included, so `strlen(buf) == 0` is never reached; at end of input `buf` keeps the last line and the loop does not end (sources/wsgi.c:58-63, sources/gsgi.c:82-87). The model ends the header at the blank line instead. Lines over 2048 characters are not modelled.
- CppContext.Atoi: the result is an unbounded integer. C's `atoi` on a value outside `int` is undefined behaviour, and the parsed port is not bounded either; CppContext.AtoiDecimal holds for every natural number, which C guarantees only up to INT_MAX.
- RustBuffer.Target: the `i64` additions wrap, as in a release build. A debug build panics when `offset + len as i64` or `offset + index as i64` overflows; that panic is not modelled.
- CppSgi.Runtime.ProcessRequest: `rid` is an unbounded integer; the overflow of the C `int` counter is not modelled.
- CppSgi.Runtime.Setup: the early return on the first setup and the counter wrap in `gsgi_cleanup` are kept as written (CppSgi.FirstRequestUsesMissingSet, CppSgi.CleanupFirstWraps); no corrected runtime is modelled.
- CppCache.Cache.Add: an entry's size is the length of its body, standing for `getSize()` (sources/cache.cpp:119).
  - Ties between equally old entries are broken by name order.
  - Callbacks are an ordered sequence; the iteration order of `std::map` is not modelled.
  - Timers are due-times that the caller fires with `Timeout`.
- CppExecutor.ProgramTable.Load: YAML nodes are a small datatype. A null node reads as the text `null`, as yaml-cpp's `as<std::string>()` gives it, and a sequence or map node does not convert. yaml-cpp's own parsing is not part of this model.
- CppExecutor.Executor.Spawn: the child process and its signals are not modelled; only the liveness flag is.
- CppExecutor.Executor.AsWritten: requires that the argument loop stop inside the environment table. With more arguments than environment variables, line 109 writes past the end of `env`; that out-of-bounds store is undefined behaviour and is not modelled.
- CppExecutor.Executor.OnExitAsWritten: an indeterminate `data` is reported as `undefined`; what the cast pointer then overwrites is not modelled.
- Allocator slots are abstract ids, not memory. Pointer arithmetic and the addresses of heap chunks are not modelled.

## Findings

| source | as written | input that shows it | evidently intended | confidence | as-written member | corrected member |
|---|---|---|---|---|---|---|
| src/pathutil.rs:218-223 | `expand` refuses any expansion that starts with the characters `..` | `/..foo` | refuse only an expansion that climbs above the root (`..` or `../…`) | not executed | PathUtil.DotDotName | PathUtil.AsWrittenAccepted |
| src/glob.rs:31-42 | the last literal is searched leftmost, and text after it is refused | glob `*Hello`, text `HelloHello` | the last literal must end the text | not executed | RustGlob.LastLiteralMatchedLeftmost | RustGlob.MatchesFixedCorrect |
| src/gemini.rs:36-40 | the authority ends at the first `/` anywhere, even inside the query | `gemini://host?a/b` | the authority ends at the first `/` or `?` | not executed | Gemini.SlashInQueryAsWritten | Gemini.SlashInQueryFixed |
| src/capsule.rs:237-247 | `test` returns on the domain check alone, before the rules are consulted | a request for the capsule's domain whose path no rule matches | a request is accepted only when a rule matches its path | not executed | Capsule.TestAsWritten | Capsule.UnmatchedPathRefused |
| src/capsule/cgi.rs:22-37 | one leading `/` is stripped, so `//e` stays absolute and `Path::join` replaces the CGI root | request path `//e` | the search stays below the CGI root | not executed | RustCgi.DoubleSlashAsWritten | RustFs.TargetInsideRoot |
| src/capsule/file.rs:48-70 | the same strip and join let `//e` name `/e` outside the root | request path `//e` | files are served only from below the root | not executed | RustFile.DoubleSlashAsWritten | RustFs.TargetInsideRoot |
| src/capsule/files.rs:112-121 | the same strip and join let `//e/` name `/e` outside the directory | request path `//e/` | files are served only from below the directory | not executed | RustFiles.DoubleSlashAsWritten | RustFs.TargetInsideRoot |
| sources/pathutils.cpp:46-48 | `basename` searches for `/` before `\`, so a later `\` is ignored | `a/b\c` | the base name follows the last separator of either kind | not executed | CppPath.BasenameMixedSeparators | CppPath.BasenameAgrees |
| sources/pathutils.cpp:154-158 | `delUps` drops the root together with a leading `..` | `/../a` | an absolute path stays absolute | not executed | CppPath.DelUpsAboveRoot | CppPath.DelUpsKeepsRoot |
| sources/glob.cpp:36-48 | the last literal is searched leftmost, and text after it is refused | glob `a*b`, text `abb` | the last literal must end the text | not executed | CppGlob.LastLiteralMatchedLeftmost | CppGlob.MatchesFixedCorrect |
| sources/context.cpp:50-102 | the scheme is checked only when both a path and a query are present | `http://foo.bar/cheese` | any scheme other than `gemini` is refused | not executed | CppContext.SchemeUncheckedAsWritten | CppContext.AfterSchemeFixed |
| sources/context.cpp:38-49 | the port is searched from the first `:` after the scheme, even in the path | `gemini://foo.bar/a:b` | a `:` in the path is part of the path | not executed | CppContext.ColonInPathAsWritten | CppContext.FixedParts |
| sources/context.cpp:68-96 | the host ends at the first `/` anywhere, even inside the query | `gemini://foo.bar?a/b` | the query keeps `?a/b` | not executed | CppContext.SlashInQueryAsWritten | CppContext.FixedJoins |
| sources/util.cpp:33-39 | `read` moves `start` but never lowers `length` | write `abc`, read 3 bytes | the bytes read are no longer unread | not executed | CppBufferPipe.ReadAllAsWritten | CppBufferPipe.BufferPipe.Read |
| sources/util.cpp:12-31 | `write` ignores `closed` | close, then write `abc` | a closed pipe takes no more bytes | not executed | CppBufferPipe.WriteAfterClose | CppBufferPipe.BufferPipe.Write |
| shared/util.hpp:86-111 | the free list is sized before the slots are pushed, so it starts with null pointers | `alloc_size + 1` allocations | only real slots are handed out | not executed | CppAllocator.NullAfterStack | CppAllocator.NoNullWhenFixed |
| shared/gemcaps/stringutil.hpp:52-65 | `valbuf` holds ten characters | `append(-1000000000)` | room for a sign and ten digits | not executed | CppStringLiteral.ValbufTooShort | CppStringLiteral.IntFitsEleven |
| sources/executor.cpp:109 | the argument table's terminator is written into the environment table | a program with fewer arguments than environment variables | each table ends with its own null pointer | not executed | CppExecutor.EnvironmentCutAsWritten | CppExecutor.EnvironmentEntries |
| sources/executor.cpp:96-109 | the argument table gets no null pointer | any program | the argument table ends with a null pointer | not executed | CppExecutor.ArgumentsUnterminatedAsWritten | CppExecutor.ArgumentEntries |
| sources/executor.cpp:57-95 | the buffers are sized without the final terminator `strcpy` writes | any environment | one more character for the terminator | not executed | CppExecutor.NoRoomForTerminator | CppExecutor.Executor.constructor |
| sources/executor.cpp:29-44 | `spawn` never stores the executor in the handle's `data`, so the exit callback gives the handle back (null slot) or reads an indeterminate pointer, and never clears `alive` | spawn a child, then let it exit | the child is marked no longer alive | not executed | CppExecutor.ExitAsWrittenLeavesAlive | CppExecutor.ExitIntendedStopsChild |
| sources/cache.cpp:110-140 | `add` on a name already present counts its size again | add `a`, add `a`, invalidate `a` | the byte count is the sum over present entries | not executed | CppCache.ReAddLeaks | CppCache.ReAddCorrected |
| sources/cache.cpp:104-140 | `loading` on a loaded entry drops it without lowering the byte count | add `a`, loading `a`, invalidate `a` | the byte count is the sum over present entries | not executed | CppCache.ReloadLeaks | CppCache.Cache.LoadingCorrected |
| sources/cache.cpp:112-130 | `clear` keeps the byte count | clear a full cache, then add a body that fits | an empty cache counts no bytes | not executed | CppCache.ClearThenAddHangs | CppCache.Cache.ClearCorrected |
| sources/cache.cpp:112-116 | eviction loops while the cache is empty | a body larger than the budget | eviction stops once the cache is empty, and `add` returns | not executed | CppCache.OversizeHangs | CppCache.Cache.AddCorrected |
| sources/gsgi.c:126-140 | the size test is inverted: with no declared size the body is empty, and a declared size is ignored | body `hi` then NUL, no size declared | an unsized body is read up to the first NUL, a sized one for its size | not executed | CppSgi.UnsizedBodyLost | CppSgi.ReadResponseCorrected |
