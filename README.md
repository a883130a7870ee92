# mavourings: query strings, cookies and the user store, in Dafny

This project models three self-contained parts of the `mavourings` web
toolkit and proves properties of the model:

- **Query strings** (`src/query.rs`). `url_decode` is a percent decoder that
  works on bytes and can read `+` as a space. `url_encode` is a percent encoder
  that writes each UTF-8 byte of a reserved or non-graphic character as
  lowercase `%xx`. `Query::from_str` splits a query on `&` and at the first
  `=` of each piece. `has`, `has_value`, `has_bool` and `get_first_value`
  look things up in the parsed query.
- **Cookies** (`src/cookie.rs`). `SetCookie` is a builder; `as_string` writes
  `key=value` followed by the attributes that are set, in a fixed order.
  `parse_header` splits a `Cookie` header on `;` and each piece at its first
  `=` into a map of trimmed names and values.
- **Users** (`src/users.rs`). `UserEntry` records have a one-line text form,
  written by `Display` and read by `FromStr`. The `Users` registry maps user
  ids to records, creates and ends sessions, and looks users up. It loads
  from a file of record lines. Ids are random Base58 strings. The session
  cookie headers are built with the cookie builder.

Files:

- `wrappers.dfy`: `Option` and `Result`.
- `text.dfy`: the parts of Rust's `str` API the three modules use, namely
  `find`, `split`, `split_once`, `strip_prefix`, `trim`, `lines` and the
  decimal display of an unsigned number.
- `utf8.dfy`: UTF-8 encoding of characters and the validating decoder behind
  `String::from_utf8`.
- `query.dfy`, `cookie.dfy` and `users.dfy`: one module per source file.

The code that changes state step by step is modelled imperatively:

- The loops of `url_decode`, `url_encode`, `from_str`, `parse_header`
  and `Display`, and the appending steps of `as_string`, are methods. Each is proved against a
  function that specifies it.
- The registry is a class whose `users` map field the methods update.

The value types are datatypes with functions over them:

- the builder setters, which take the cookie by value and return it;
- `new_session` and `stub`;
- `FromStr` for records.

Rust `char`s are Dafny `char`s (Unicode scalar values), and bytes are
integers below 256.

## Model

| member | source | states |
|---|---|---|
| `QueryString.HexValue` | src/query.rs:147-148 | a hex digit has the value of its place among `0123456789abcdef`, an upper-case letter that of its lower-case form, always below 16 |
| `QueryString.HexValueEitherCase` | src/query.rs:147-148 | `to_digit(16)` gives an upper-case letter the value of its lower-case form |
| `QueryString.LowerHexDigit` | src/query.rs:204 | the digit `{:02x}` writes for a value below 16 is a hex digit with that value, never an upper-case letter |
| `QueryString.FromUtf8` | src/query.rs:166 | `String::from_utf8` succeeds only with a string whose UTF-8 form is exactly the given bytes |
| `QueryString.DecodeNext` | src/query.rs:136-164 | one turn of the decoding loop consumes at least one character, and the bytes it pushes are the decoding of what it consumed |
| `QueryString.DecodedBytes` | src/query.rs:136-164 | the bytes the decoding loop pushes for the whole input: each turn's bytes in order, until the input is used up; its properties are the `Decode…` rows |
| `QueryString.UrlDecode` | src/query.rs:128-170 | the loop's result is the UTF-8 check applied to the bytes the decoding rules give for the whole input |
| `QueryString.UrlDecodingFailsIff` | src/query.rs:165-167 | decoding fails with `InvalidUtf8` exactly when the decoded bytes are not the UTF-8 form of any string; otherwise it returns the string of those bytes |
| `QueryString.DecodePlus` | src/query.rs:137-140 | an unescaped `+` becomes a space when `plus_as_space` holds and stays `+` otherwise |
| `QueryString.DecodeEscapedPlus` | src/query.rs:141-151 | `%2B` and `%2b` decode to `+` in both modes, never to a space |
| `QueryString.DecodeEscape` | src/query.rs:141-151 | `%` and two hex digits of either case decode to the one byte `upper * 16 + lower` |
| `QueryString.DecodeBarePercent` | src/query.rs:158-160 | a `%` not followed by a hex digit is copied as `%`, and what follows is decoded normally |
| `QueryString.DecodeHalfEscape` | src/query.rs:152-157 | a `%` followed by one hex digit and then no hex digit is copied as `%` and that digit |
| `QueryString.DecodePlain` | src/query.rs:162-164 | text without `%` and `+` decodes to itself |
| `QueryString.Escape` | src/query.rs:204 | a byte is written as `%` and two lower-case hex digits whose value is the byte |
| `QueryString.PushEscaped` | src/query.rs:202-205 | the inner loop appends the escapes of all the bytes of a character, in order |
| `QueryString.ShouldEncode` | src/query.rs:197 | a character is escaped exactly when it is not ASCII graphic or is one of `!#$%'()*+,/:;=?@[]` |
| `QueryString.EncodedChar` | src/query.rs:199-211 | one turn of the encoding loop: the escapes of the character's UTF-8 bytes when it is to be escaped, the character itself otherwise |
| `QueryString.UrlEncoding` | src/query.rs:199-211 | the encoding of a string: the encodings of its characters, in order; its properties are `UrlEncodingIsGraphic`, `UrlEncodingAppend` and `UrlRoundTrip` |
| `QueryString.UrlEncode` | src/query.rs:194-213 | the loop's result is the character-by-character encoding of the input |
| `QueryString.EscapeAllIsGraphic` | src/query.rs:203-205 | the escapes of n bytes are 3n ASCII graphic characters, none of them `+` |
| `QueryString.UrlEncodingIsGraphic` | src/query.rs:197-208 | an encoding holds only ASCII graphic characters and no `+` |
| `QueryString.UrlEncodingAppend` | src/query.rs:199-211 | encoding works character by character: the encoding of a concatenation is the concatenation of the encodings |
| `QueryString.DecodeEscapeAll` | src/query.rs:141-151 | a run of escapes decodes to exactly the escaped bytes |
| `QueryString.DecodeEncodedChar` | src/query.rs:137-164 | the encoding of one character decodes to that character's UTF-8 bytes |
| `QueryString.DecodedBytesOfEncoding` | src/query.rs:128-213 | decoding an encoding gives the UTF-8 bytes of the original string, with `+` read either way |
| `QueryString.UrlRoundTrip` | src/query.rs:128-213 | `url_decode(url_encode(s), b)` is `Ok(s)` for both values of `b` |
| `QueryString.Query.Has` | src/query.rs:24-34 | `has(k)` holds exactly when some parameter, a pair or a flag, is named `k` |
| `QueryString.Query.HasValue` | src/query.rs:48-58 | `has_value(k)` holds exactly when some key-value pair has key `k` |
| `QueryString.Query.HasBool` | src/query.rs:72-81 | `has_bool(k)` holds exactly when the flag `k` is among the parameters |
| `QueryString.Query.GetFirstValue` | src/query.rs:96-105 | `get_first_value(k)` is the value of the first pair with key `k`, and is `None` exactly when there is no such pair |
| `QueryString.HasIsValueOrBool` | src/query.rs:24-81 | `has(k)` holds exactly when `has_value(k)` or `has_bool(k)` holds |
| `QueryString.FirstValueIffHasValue` | src/query.rs:48-105 | `get_first_value(k)` is `Some` exactly when `has_value(k)` holds |
| `QueryString.ParseParameter` | src/query.rs:230-237 | a piece without `=` is a flag; otherwise it is cut at its first `=` into the raw key and the decoded rest, and it fails exactly when that decoding fails |
| `QueryString.ParseParameters` | src/query.rs:229-240 | one parameter per piece, in order; any failing piece fails the whole parse |
| `QueryString.ParseQuery` | src/query.rs:225-243 | `from_str` succeeds exactly when every `&`-separated piece parses, and then gives one parameter per piece, each the parse of its piece, in order |
| `QueryString.FromStr` | src/query.rs:225-243 | the loop's result is the parse of the `&`-separated pieces |
| `Utf8.EncodeChar` | src/query.rs:215-219 | `char_bytes` gives one to four bytes, one exactly for ASCII, and continuation bytes after the first |
| `Utf8.DecodeFirst` | src/query.rs:166 | a decoded first character consumes between one byte and all of the input |
| `Utf8.DecodeFirstSound` | src/query.rs:166 | the bytes consumed for a decoded first character are that character's encoding |
| `Utf8.Decode` | src/query.rs:166 | a successful validation returns a string whose UTF-8 form is the input |
| `Utf8.DecodeFirstEncodeChar` | src/query.rs:166 | the encoding of a character decodes back to it, whatever follows |
| `Utf8.DecodeEncode` | src/query.rs:166 | validating the UTF-8 form of a string gives the string back |
| `Utf8.DecodeSucceedsIff` | src/query.rs:166 | validation succeeds exactly on the UTF-8 forms of strings |
| `Text.Find` | src/users.rs:346 | `find` gives the first index holding the character, or `None` exactly when it is absent |
| `Text.FindAt` | src/users.rs:99 | the first occurrence is unique: after a prefix without `x`, `position` is the prefix's length |
| `Text.Split` | src/cookie.rs:80 | `split` gives at least one piece, and no piece holds the separator |
| `Text.JoinSplit` | src/cookie.rs:80 | the pieces of a split, joined with the separator, give back the string |
| `Text.SplitJoin` | src/cookie.rs:80 | splitting a join of separator-free pieces gives back the pieces |
| `Text.SplitOnce` | src/cookie.rs:81 | `split_once` is `None` exactly without the separator; otherwise it cuts at the first one |
| `Text.SplitOnceAt` | src/users.rs:336 | cutting `a + sep + b` with `sep` not in `a` gives `a` and `b` |
| `Text.StripPrefix` | src/users.rs:366 | `strip_prefix` succeeds exactly when the prefix is there and returns the rest |
| `Text.Trim` | src/cookie.rs:84 | `trim` gives a string that neither starts nor ends with whitespace |
| `Text.TrimIsSlice` | src/cookie.rs:84 | `trim` gives a slice of its input: the input is what was cut before, the result, and what was cut after |
| `Text.TrimDropsWhitespace` | src/cookie.rs:84 | what `trim` cuts off at either end is whitespace |
| `Text.TrimUnchanged` | src/cookie.rs:84 | a string without whitespace at its ends is unchanged by `trim` |
| `Text.IsWhitespace` | src/cookie.rs:84 | the characters `trim` removes: the Unicode `White_Space` characters |
| `Text.Lines` | src/users.rs:185 | no line that `lines` gives holds a newline |
| `Text.LinesUnlines` | src/users.rs:166-188 | `lines` reads back lines written each followed by a newline, when none holds a newline or ends in a carriage return |
| `Text.DecimalString` | src/cookie.rs:58 | the decimal text of a number is non-empty digits without a leading zero |
| `Text.DecimalRoundTrip` | src/cookie.rs:58 | the decimal text of a number denotes that number |
| `Cookie.New` | src/cookie.rs:17-27 | a new cookie has its key and value, is secure and HTTP-only, and has no expiration, max-age or path |
| `Cookie.SetCookie.Secure` | src/cookie.rs:29-32 | sets the secure flag and changes nothing else |
| `Cookie.SetCookie.HttpOnly` | src/cookie.rs:34-37 | sets the HTTP-only flag and changes nothing else |
| `Cookie.SetCookie.MaxAge` | src/cookie.rs:39-42 | sets the max-age and changes nothing else |
| `Cookie.SetCookie.Path` | src/cookie.rs:44-47 | sets the path and changes nothing else |
| `Cookie.BuildHasNoExpiration` | src/cookie.rs:17-47 | no sequence of builder calls sets an expiration, or changes the key or the value |
| `Cookie.AttributesInOrder` | src/cookie.rs:49-74 | the header's attributes appear in the order `Expires`, `Max-Age`, `Secure`, `HttpOnly`, `Path`, each at most once |
| `Cookie.AttributesPresent` | src/cookie.rs:49-74 | each attribute is written exactly when its field is set, and with that field's value (`Max-Age` in whole seconds) |
| `Cookie.Attributes` | src/cookie.rs:52-71 | the `; `-separated segments after `key=value`: `Expires`, `Max-Age`, `Secure`, `HttpOnly`, `Path`, each only when its field is set; its properties are `AttributesInOrder` and `AttributesPresent` |
| `Cookie.Header` | src/cookie.rs:49-50 | the header begins with `key=value` |
| `Cookie.AsString` | src/cookie.rs:49-74 | the appending steps write `key=value` followed by the segments of the set attributes |
| `Cookie.MaxAgeReadsBack` | src/cookie.rs:57-59 | the `Max-Age` segment carries the whole seconds in decimal, which read back as that number |
| `Cookie.NewHeader` | src/cookie.rs:17-74 | a new cookie's header is `key=value; Secure; HttpOnly` |
| `Cookie.ParsePair` | src/cookie.rs:81-85 | a piece gives no pair exactly when it has no `=` |
| `Cookie.ParsePairs` | src/cookie.rs:80-86 | when the pieces parse, there is one pair per piece |
| `Cookie.ParsePairsSucceeds` | src/cookie.rs:80-86 | all pieces give pairs exactly when each holds `=` |
| `Cookie.ParsePairsStep` | src/cookie.rs:80-86 | parsing one more piece appends its pair, or fails when that piece has no `=` |
| `Cookie.InsertionsDomain` | src/cookie.rs:78-84 | the map's names are exactly the names inserted |
| `Cookie.InsertionsLastWins` | src/cookie.rs:78-84 | a name is bound to the value of its last insertion |
| `Cookie.ParseHeader` | src/cookie.rs:77-90 | the loop's result is the map of the header's pairs, or the error at the first piece without `=` |
| `Cookie.HeaderMap` | src/cookie.rs:77-90 | `parse_header` succeeds exactly when every `;`-separated piece holds `=`, and then gives the map of the pieces' trimmed pairs inserted in order |
| `Cookie.ParsePairCutsAtFirstEquals` | src/cookie.rs:81-85 | a piece is cut at its first `=`, so the value may hold `=`, and both sides are trimmed |
| `Cookie.HeaderMapDomain` | src/cookie.rs:77-90 | a name is in the parsed map exactly when some piece's pair has that name |
| `Cookie.HeaderMapLastWins` | src/cookie.rs:78-86 | when a name repeats, the value of its last piece is the one kept |
| `Cookie.EmptyHeaderFails` | src/cookie.rs:80-83 | the empty header is an error |
| `Cookie.SplitEndsEmpty` | src/cookie.rs:80 | the last piece of a string ending in the separator is empty |
| `Cookie.TrailingSemicolonFails` | src/cookie.rs:80-83 | a header ending in `;` is an error |
| `Cookie.ParsePairRendered` | src/cookie.rs:81-85 | a pair written as `name=value` parses back when the name has no `=` and neither side has whitespace at its ends |
| `Cookie.ParsePairsRendered` | src/cookie.rs:80-86 | a sequence of such pairs parses back |
| `Cookie.HeaderMapRoundTrip` | src/cookie.rs:77-90 | a header written from such pairs, joined with `;` and without `;` inside, parses to the map of those pairs, with later names winning |
| `Users.RandomBase58` | src/users.rs:14-19 | `random_base58(n)` gives exactly `n` characters, each from the alphabet |
| `Users.RandomBase58Reaches` | src/users.rs:14-19 | every string over the alphabet is a possible result |
| `Users.Base58Alphabet` | src/users.rs:7 | the alphabet has 58 distinct characters in increasing order, all letters and digits |
| `Users.GeneratedIdsWritable` | src/users.rs:298-305 | generated user and session ids hold none of the record line's separators |
| `Users.GenerateUserId` | src/users.rs:298-300 | a new user id is six characters of the Base58 alphabet |
| `Users.GenerateSessionId` | src/users.rs:303-305 | a new session id is six characters of the Base58 alphabet |
| `Users.NewUser` | src/users.rs:249-260 | a new user has the given fields and no sessions |
| `Users.Stub` | src/users.rs:273-279 | a stub copies the email, id and username |
| `Users.NewSession` | src/users.rs:262-270 | `new_session` appends exactly the new id to the sessions and changes no other field; the session carries the entry's stub |
| `Users.Display` | src/users.rs:308-329 | the record line is `id <email> username hash sessions=`, with `<>` for no email, then every session id followed by a comma |
| `Users.EntryLine` | src/users.rs:308-328 | the record line `Display` writes: the id, the email field, the username and the hash, each followed by a space, then `sessions=` and the session list; its properties are `Display` and `ParseEntryLine` |
| `Users.SessionIds` | src/users.rs:366-377 | the session ids are exactly the non-empty pieces of the session list, never more of them than pieces |
| `Users.ParseEntry` | src/users.rs:336-339 | a line without a space is an error |
| `Users.ParseAfterId` | src/users.rs:341-344 | after the id, a remainder not starting with `<` is an error |
| `Users.ParseEmail` | src/users.rs:346-359 | a remainder without `>` is an error |
| `Users.ParseFields` | src/users.rs:361-386 | fewer than three fields is an `unwrap` panic; a third field without `sessions=` is an error; the parse succeeds exactly when there are three fields and the third starts with `sessions=`, and then keeps the id and email, takes the first two fields as username and hash, and the non-empty `,`-separated pieces after `sessions=` as the sessions, ignoring any later fields |
| `Users.SessionListReadsBack` | src/users.rs:321-377 | the written session list reads back as the session ids when these are non-empty and hold no `,` or space |
| `Users.ParseFieldsReadsBack` | src/users.rs:361-386 | the written username, hash and session list read back as the entry |
| `Users.ParseEmailReadsBack` | src/users.rs:346-359 | the email field `address> ` is read, an empty one as no email, and the `>` and the space are skipped |
| `Users.ParseEntryLine` | src/users.rs:435-455 | `FromStr` reads back what `Display` writes, for entries without separators in their fields |
| `Users.EmailAtEndPanics` | src/users.rs:350-351 | a line ending just after the `>` makes the source slice past the end of the line |
| `Users.LoadLines` | src/users.rs:180-192 | loading keeps every entry stored under its own id |
| `Users.RemoveFirst` | src/users.rs:99-101 | removing at the first position of `sid` removes that one occurrence and keeps the other sessions in their order |
| `Users.LoadLinesParsed` | src/users.rs:180-188 | loading lines that all parse, in any form `from_str` accepts, does not panic and inserts their entries in order, so a later line with the same id wins |
| `Users.InsertAllLastWins` | src/users.rs:185-188 | of several loaded entries with the same id, the last one is kept |
| `Users.InsertAll` | src/users.rs:185-188 | inserting entries one after another by id: the ids in the map are exactly those it had and those of the entries |
| `Users.EntryLines` | src/users.rs:170-171 | `save` writes one record line per entry, in the iteration order |
| `Users.SavedText` | src/users.rs:166-172 | the text `save` writes: every entry's record line followed by a newline, in the iteration order |
| `Users.LoadSavedText` | src/users.rs:166-192 | loading the text `save` writes for writable entries does not panic and inserts the entries in order |
| `Users.Users.constructor` | src/users.rs:27-31 | a new registry is empty |
| `Users.Users.Register` | src/users.rs:35-52 | the new entry with its one session is stored under its id, replacing any entry with that id, and its session is returned |
| `Users.Users.Login` | src/users.rs:56-71 | a session is added to the user with that name that the map's order reaches first, if its password checks out; otherwise nothing changes |
| `Users.Users.Authenticate` | src/users.rs:76-91 | the stub of the user with that name that the map's order reaches first, if its password checks out; otherwise `None`; nothing changes |
| `Users.Users.Logout` | src/users.rs:95-109 | returns a stub exactly when some user holds `sid`; that user loses one occurrence of `sid`, and nothing else changes |
| `Users.Users.SessionById` | src/users.rs:112-127 | returns a session exactly when some user holds `sid`, naming that user's stub |
| `Users.Users.StubBySession` | src/users.rs:130-142 | returns a stub exactly when some user holds `sid`, the stub of that user |
| `Users.Users.StubByUid` | src/users.rs:144-146 | a stub exactly when the id is stored, the stub of its entry |
| `Users.Users.StubByUsername` | src/users.rs:149-164 | the stubs of all users with that name, one per user |
| `Users.Users.Load` | src/users.rs:180-192 | each line is parsed and inserted under its id, in order; a line that does not parse stops the load with a panic |
| `Users.SessionCookieHeader` | src/users.rs:412-429 | the session cookie's header is `sid=<id>; Max-Age=<seconds>; Secure; HttpOnly; Path=/` |
| `Users.SessionCookie` | src/users.rs:413-417 | the session cookie is named `sid`, carries the session id, is secure and HTTP-only, has path `/` and the given maximum age, and no expiration |
| `Users.ThirtyDaysDecimal` | src/users.rs:416 | thirty days are written as 2592000 seconds |
| `Users.SessionSetCookie` | src/users.rs:412-419 | the login header keeps the `sid` cookie for thirty days |
| `Users.SessionClearCookie` | src/users.rs:422-429 | the logout header has a maximum age of zero |

## Left out

- The HTTP connection engine (request parsing, chunked bodies, keep-alive) is not part of this model. Nor is `src/lib.rs` (response building, files from disk, MIME guessing, templates). Nor is `src/extractors.rs`, the framework glue that chains `parse_header` and `session_by_id`.
- Argon2 hashing and checking (`hash_password`, `verify_password`) are a foreign library. The hash arrives as a string, and the check is a function parameter of `Login` and `Authenticate`.
- `OsRng` in `random_base58` is randomness. Its picks are a parameter: a sequence of indices into the alphabet.
- The `RwLock` and `async` of `Users` are left out. The registry is a single-threaded class.
- `Users::save` and the file reads and writes of `save` and `load` are I/O. `Load` takes the file's text. `SavedText` is the text `save` builds for a given order of entries, and `LoadSavedText` relates the two. An I/O error from `read_to_string` is not modelled.
- HashMap iteration order is unspecified. `Login`, `Authenticate`, `Logout`, `SessionById` and `StubBySession` choose some matching user, and their contracts hold for any choice.
- Users.Users.StubByUsername: the order of the stubs is not stated, because it is the map's iteration order.
- Users.Users.Load: the source's `unwrap` panic on a bad line is modelled as returning `true`, with the entries of the earlier lines kept.
- Records in the map are changed in place in the source (`values_mut`, `sessions.remove`). The model replaces the entry's value in the map, which is the same, since entries are never shared.
- `Session::login_cookie` and `Session::logout_cookie` only call `session_set_cookie` and `session_clear_cookie`, so they are not modelled separately.
- The `Expires` date formatting uses the `time` crate. An expiration is modelled as the date text it formats to. No builder method sets it (`BuildHasNoExpiration`).
- `Duration::as_secs` returns a `u64`. Seconds are unbounded naturals here, and the nanoseconds are dropped, as `as_secs` drops them.
- `FromStr` slices the line by bytes (`&s[idx + 2..]`). The model works on characters. That slice panics when `>` is the last character, or when the character after `>` is not ASCII, because the slice would then end inside it. Both cases give `Panicked`, as do the `unwrap` calls on missing fields.
- `parse_header` returns borrowed slices of the header. The model returns copies.
- Formatter errors in `Display` cannot happen when writing to a `String`, and are not modelled.
