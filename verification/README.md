# Channel message history on a Redis sorted set

This project models the broker of `internal/broker/broker.go`. The broker
keeps each chat channel's history in a Redis sorted set under the key
`messages:<channel id>`. Every message is stored as its JSON text, scored
by its nanosecond timestamp. `Save` adds a message with one `ZADD`.
`LoadHistory` reads the messages scored at or after a timestamp with one
`ZRANGE … BYSCORE … LIMIT 0 100`. `toJson` and `JsonToMessage` convert
between a `Message` and its JSON text.

The model is functional. The Redis keyspace is a value (`Broker.Store`, a
map from key to sorted set) passed in to every operation, and `Save`
returns the new keyspace. The Redis client's reply to a command is an
explicit parameter: `None` for success, `Some(err)` for an error.

Modules, one file each:

- `Wrappers` (`wrappers.dfy`): `Option` and `Result`.
- `StringOrder` (`string_order.dfy`): the byte order Redis uses to break
  ties between members of equal score.
- `SortedSet` (`sorted_set.dfy`): the part of the Redis sorted set the
  broker uses. A set is kept the way Redis keeps it, as entries in
  ascending (score, member) order with no member twice. Its content is the
  member-to-score map `ToMap`. The module defines `ZAdd` (ZADD without
  flags) and `RangeByScore` (ZRANGE BYSCORE with LIMIT). The predicate
  `IsPage` is the reference definition of a range result, stated on the
  content alone.
- `Codec` (`codec.dfy`): `Message`, `ToJson` and `JsonToMessage`.
- `Broker` (`broker.dfy`): `MsgChan`, `ZChannel`, `Save` and `LoadHistory`,
  plus the properties that relate them.

Behaviour of the code worth knowing:

- The key is `messages:<channel id>`. It holds no user id, although the
  doc comment on `Save` (broker.go:27) says it does.
- Store errors are returned unchanged, not wrapped in a new error type.
- `LoadHistory` does not decode anything. Its lower bound is inclusive,
  because it is passed as a plain ZRANGE minimum.
- Saving a byte-identical message twice keeps one copy, because an
  unflagged ZADD updates an existing member.

## Model

| member | source | states |
|---|---|---|
| Broker.ZChannelRoundTrip | internal/broker/broker.go:13-15 | Every channel key begins with the namespace `messages:`, and stripping that prefix gives back the channel id. |
| Broker.ChannelOfKey | internal/broker/broker.go:67-70 | Inverse of zChannel: when a key is accepted, zChannel of the returned id is that key. |
| Broker.ZChannelInjective | internal/broker/broker.go:68-70 | Two channel ids share a key exactly when they are equal, so channels cannot see each other's messages. |
| Broker.Save | internal/broker/broker.go:28-45 | A client error fails Save with that same error. On success the channel's key is present and every other key is unchanged. The channel's content is the old content with the message's JSON scored at its timestamp, inserted or updated in place. |
| Broker.SaveIdempotent | internal/broker/broker.go:29-38 | Saving the same message a second time leaves the keyspace exactly as one save left it. |
| Broker.SaveIsolation | internal/broker/broker.go:38 | A save to channel A leaves LoadHistory of every other channel B unchanged, both its result and its error. |
| Broker.SavePreservesWellFormed | internal/broker/broker.go:28-45 | If every stored entry is the JSON of a message of its key's channel, scored by its timestamp, a successful Save keeps it so. |
| Broker.LoadHistory | internal/broker/broker.go:49-65 | A client error gives an empty slice and that error. Otherwise there is no error and the result is the page: members of the channel's set scored at least LastTimestamp, ascending by (score, member), at most 100. A qualifying member is left out only when the page holds 100 members that all sort before it. No keyspace is returned, so the load cannot change the store. |
| Broker.LoadHistoryIsThePage | internal/broker/broker.go:51-57 | Any list with those page properties is exactly what LoadHistory returns, so the result depends only on the channel's content. |
| Broker.EmptyChannel | internal/broker/broker.go:59-64 | On a channel nothing was saved to, LoadHistory returns an empty slice and no error. |
| Broker.SaveThenLoad | internal/broker/broker.go:49-57 | After Save(m), a load from any bound up to m's timestamp returns m's JSON unless the page is full of members that sort before it. A load from a later bound never returns it (inclusive lower bound). |
| Broker.HistoryDecodes | internal/broker/broker.go:47-65 | On a store whose entries are well formed, every loaded item decodes without error to a message of the requested channel with timestamp at least the bound, and the decoded timestamps never decrease along the page. |
| SortedSet.ZAdd | internal/broker/broker.go:29-38 | ZADD without NX/XX/GT/LT sets the member's score, adding the member if it is absent. No other member changes, and every resulting entry is old or the new one. |
| SortedSet.Canonical | internal/broker/broker.go:38 | Two sorted sets with the same member-to-score content are the same sequence of entries. |
| SortedSet.RangeByScore | internal/broker/broker.go:51-59 | ZRANGE min +inf BYSCORE LIMIT 0 count returns the first count members scored at least min, in Redis order, as a page of the set's content. |
| SortedSet.PageUnique | internal/broker/broker.go:51-56 | Two pages of the same content with the same bound and limit are equal. |
| SortedSet.PrecedesStrictTotalOrder | internal/broker/broker.go:51-56 | The (score, member) order of results is irreflexive, asymmetric and transitive, and total on entries with distinct members. |
| Codec.JsonToMessage | internal/broker/broker.go:87-95 | On failure it returns the zero Message with the error. On success there is no error, and the input is exactly toJson of the returned message. |
| Codec.JsonRoundTrip | internal/broker/broker.go:72-95 | JsonToMessage(toJson(m)) is m with no error. |
| Codec.ToJsonInjective | internal/broker/broker.go:72-80 | Distinct messages have distinct JSON, so they are distinct sorted-set members. |
| Codec.DecodesIffEncoded | internal/broker/broker.go:88-95 | Every text toJson produces decodes without error (as with json.Unmarshal); the model's decoder, the exact inverse of toJson, succeeds on nothing else. |

## Left out

- `Run` (broker.go:97-128) is the demo driver. Everything it does is client construction, printing and logging.
- The Redis client, the network and `context` cancellation are not modelled. A command's outcome is a parameter. A failed command is taken to have changed nothing, with no retry or timing.
- A key holding a non-sorted-set value (Redis's WRONGTYPE error) cannot arise, because the modelled keyspace holds only sorted sets.
- Codec.JsonToMessage: accepts only the exact text `ToJson` writes. encoding/json also accepts whitespace, any field order, case-insensitive field names, missing or unknown fields, other escapes, `null` and `-0`. Its byte-level grammar is foreign library code.
- Codec.DecodesIffEncoded: the "only if" half describes the model's exact-inverse decoder only. `json.Unmarshal` (broker.go:90) also succeeds, with a nil error, on texts such as `{}`, `null` and `{"Text":"x"}`, which toJson never produces.
- `ToJson` escapes only `"` and `\` inside strings. encoding/json also escapes control characters, `<`, `>`, `&`, U+2028 and U+2029. `LoadHistory` returns the stored JSON text itself (broker.go:59-64), so for a message containing such a character the strings the model returns differ from the source's: for Text `a<b` the source stores `{"Text":"a\u003cb",…}` where the model stores `{"Text":"a<b",…}`. The bytes also decide the order of members of equal score.
- Invalid UTF-8: a Go string may hold any bytes, and `json.Marshal` (broker.go:74) replaces invalid UTF-8 with U+FFFD, so Texts `"\xff"` and `"\uFFFD"` become the same member in the source. The model's `Message` holds strings of characters and cannot represent invalid UTF-8, so `Codec.ToJsonInjective` and `Codec.JsonRoundTrip` say nothing about those Go values.
- The `log.Printf` on a marshal failure (broker.go:74-77) is left out. Marshalling this struct of strings and an int64 cannot fail.
- Broker.Save: scores are exact integers. The source converts the timestamp with `float64(m.Timestamp)` (broker.go:32). Nanosecond timestamps exceed 2^53, so real scores can round, and distinct timestamps can tie or compare differently.
- Broker.LoadHistory: the lower bound is taken directly as an int64. The source formats `LastTimestamp.UnixNano()` with `%d` (broker.go:53), and Redis parses that bound as a double, with the same rounding caveat as the scores.
- `int64ToTime` (broker.go:83-85) and `time.Time` handling are wrappers over the time library.
- Members are compared code point by code point. For valid Unicode this is the same order as Redis's byte-wise comparison of UTF-8.
