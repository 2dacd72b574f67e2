/**
 * The broker: a channel's message history kept in a Redis sorted set
 * under the key "messages:<channel id>", each message stored as its JSON
 * text with its timestamp as score.
 *
 * The Redis keyspace is a value of type `Store` passed in and returned
 * explicitly. The client's reply to each command is a parameter: `None`
 * for success, `Some(err)` for an error the client reports, which the
 * broker passes back to its caller unchanged.
 */
module Broker {
  import opened Wrappers
  import opened SortedSet
  import opened Codec

  /** The namespace every channel key starts with. */
  const MsgChan: string := "messages"

  /** The `Count` LoadHistory asks for: at most this many messages per call. */
  const PageSize: nat := 100

  /** The Redis keyspace as the broker sees it: each key holds a sorted set. */
  type Store = map<string, ZSet>

  /** An error reported by the Redis client. */
  datatype StoreError = StoreError(reason: string)

  /** The sorted set under `key`; Redis reads a missing key as an empty set. */
  function Lookup(st: Store, key: string): ZSet {
    if key in st then st[key] else []
  }

  // ---------------------------------------------------------------- keys

  /** zChannel: the key of a channel's history. */
  function ZChannel(channelId: string): string {
    MsgChan + ":" + channelId
  }

  /** The channel whose history a key holds, if it is a channel key. */
  function ChannelOfKey(key: string): (r: Option<string>)
    ensures r.Some? ==> ZChannel(r.value) == key
  {
    var prefix := MsgChan + ":";
    if prefix <= key then Some(key[|prefix|..]) else None
  }

  /** Every channel key names its channel, so no two channels share a key. */
  lemma ZChannelRoundTrip(channelId: string)
    ensures ChannelOfKey(ZChannel(channelId)) == Some(channelId)
    ensures MsgChan + ":" <= ZChannel(channelId)
  {
  }

  lemma ZChannelInjective(a: string, b: string)
    ensures ZChannel(a) == ZChannel(b) <==> a == b
  {
    ZChannelRoundTrip(a);
    ZChannelRoundTrip(b);
  }

  // ---------------------------------------------------------------- operations

  /**
   * Save: one ZADD of the message's JSON with its timestamp as score under
   * the channel's key. A client error is returned as is.
   */
  function Save(st: Store, m: Message, failure: Option<StoreError>): (r: Result<Store, StoreError>)
    ensures failure.Some? <==> r.Failure?
    ensures failure.Some? ==> r.error == failure.value
    ensures r.Success? ==> var key := ZChannel(m.channelId);
      && key in r.value
      && r.value - {key} == st - {key}
      && ToMap(r.value[key]) == ToMap(Lookup(st, key))[ToJson(m) := m.timestamp]
  {
    if failure.Some? then Failure(failure.value)
    else
      var key := ZChannel(m.channelId);
      Success(st[key := ZAdd(Lookup(st, key), ToJson(m), m.timestamp)])
  }

  /**
   * LoadHistory: ZRANGE of the channel's key BYSCORE from lastTimestamp
   * (inclusive) to +inf, LIMIT 0 100. A client error yields an empty
   * slice with the error.
   */
  function LoadHistory(st: Store, channelId: string, lastTimestamp: Int64, failure: Option<StoreError>)
    : (r: (seq<string>, Option<StoreError>))
    ensures failure.Some? ==> r == ([], failure)
    ensures failure.None? ==> r.1 == None
    ensures failure.None? ==> IsPage(ToMap(Lookup(st, ZChannel(channelId))), lastTimestamp, PageSize, r.0)
  {
    if failure.Some? then ([], failure)
    else (RangeByScore(Lookup(st, ZChannel(channelId)), lastTimestamp, PageSize), None)
  }

  // ---------------------------------------------------------------- properties

  /**
   * The page LoadHistory returns is the only one that lists, oldest first,
   * the earliest 100 members of the channel scored at lastTimestamp or later.
   */
  lemma LoadHistoryIsThePage(st: Store, channelId: string, lastTimestamp: Int64, page: seq<string>)
    requires IsPage(ToMap(Lookup(st, ZChannel(channelId))), lastTimestamp, PageSize, page)
    ensures LoadHistory(st, channelId, lastTimestamp, None) == (page, None)
  {
    var m := ToMap(Lookup(st, ZChannel(channelId)));
    PageUnique(m, lastTimestamp, PageSize, page, LoadHistory(st, channelId, lastTimestamp, None).0);
  }

  /** A channel nothing was saved to has an empty history and no error. */
  lemma EmptyChannel(st: Store, channelId: string, lastTimestamp: Int64)
    requires ZChannel(channelId) !in st
    ensures LoadHistory(st, channelId, lastTimestamp, None) == ([], None)
  {
    assert Lookup(st, ZChannel(channelId)) == [];
    assert SkipBelow([], lastTimestamp) == [];
  }

  /** Saving to one channel leaves every other channel's history as it was. */
  lemma SaveIsolation(st: Store, m: Message, channelId: string, lastTimestamp: Int64, failure: Option<StoreError>)
    requires m.channelId != channelId
    ensures LoadHistory(Save(st, m, None).value, channelId, lastTimestamp, failure)
         == LoadHistory(st, channelId, lastTimestamp, failure)
  {
    ZChannelInjective(m.channelId, channelId);
    var key := ZChannel(channelId);
    var st' := Save(st, m, None).value;
    assert key in st' <==> key in st by {
      assert key in st' - {ZChannel(m.channelId)} <==> key in st - {ZChannel(m.channelId)};
    }
    if key in st {
      assert st'[key] == (st' - {ZChannel(m.channelId)})[key];
    }
  }

  /**
   * Saving the same message twice stores it once: the unflagged ZADD
   * updates the member in place.
   */
  lemma SaveIdempotent(st: Store, m: Message)
    ensures Save(Save(st, m, None).value, m, None) == Save(st, m, None)
  {
    var key := ZChannel(m.channelId);
    var once := Save(st, m, None).value;
    var twice := Save(once, m, None).value;
    Canonical(twice[key], once[key]);
    assert twice == once by {
      assert twice - {key} == once - {key};
    }
  }

  /**
   * After Save(m), a load from any bound up to m's timestamp returns m,
   * unless the page is already full of messages that sort before it; a
   * load from a later bound never returns it.
   */
  lemma SaveThenLoad(st: Store, m: Message, lastTimestamp: Int64)
    ensures var page := LoadHistory(Save(st, m, None).value, m.channelId, lastTimestamp, None).0;
      var content := ToMap(Save(st, m, None).value[ZChannel(m.channelId)]);
      && (lastTimestamp <= m.timestamp ==>
            ToJson(m) in page ||
            (|page| == PageSize && forall i :: 0 <= i < |page| ==> Before(content, page[i], ToJson(m))))
      && (lastTimestamp > m.timestamp ==> ToJson(m) !in page)
  {
  }

  // ---------------------------------------------------------------- stored state

  /** An entry under `key` is the JSON of a message of that key's channel, scored by its timestamp. */
  predicate StoredAs(key: string, e: Entry) {
    var d := JsonToMessage(e.member);
    d.1 == None && ZChannel(d.0.channelId) == key && d.0.timestamp == e.score
  }

  /** Every stored entry is a message saved to the channel its key names. */
  ghost predicate WellFormed(st: Store) {
    forall key, e :: key in st && e in st[key] ==> StoredAs(key, e)
  }

  lemma SavePreservesWellFormed(st: Store, m: Message, failure: Option<StoreError>)
    requires WellFormed(st)
    ensures Save(st, m, failure).Success? ==> WellFormed(Save(st, m, failure).value)
  {
    if failure.None? {
      var key := ZChannel(m.channelId);
      var st' := Save(st, m, failure).value;
      JsonRoundTrip(m);
      forall k, e | k in st' && e in st'[k]
        ensures StoredAs(k, e)
      {
        if k != key {
          assert st'[k] == (st' - {key})[k] == (st - {key})[k];
        }
      }
    }
  }

  /**
   * On a store built by Save, every item LoadHistory returns decodes to a
   * message of the requested channel with timestamp at least the bound,
   * and the decoded timestamps never decrease along the page.
   */
  lemma HistoryDecodes(st: Store, channelId: string, lastTimestamp: Int64)
    requires WellFormed(st)
    ensures var page := LoadHistory(st, channelId, lastTimestamp, None).0;
      && (forall i :: 0 <= i < |page| ==>
            var d := JsonToMessage(page[i]);
            d.1 == None && d.0.channelId == channelId && d.0.timestamp >= lastTimestamp)
      && (forall i, j :: 0 <= i < j < |page| ==>
            JsonToMessage(page[i]).0.timestamp <= JsonToMessage(page[j]).0.timestamp)
  {
    var key := ZChannel(channelId);
    var z := Lookup(st, key);
    var content := ToMap(z);
    var page := LoadHistory(st, channelId, lastTimestamp, None).0;
    forall i | 0 <= i < |page|
      ensures JsonToMessage(page[i]).1 == None
      ensures JsonToMessage(page[i]).0.channelId == channelId
      ensures JsonToMessage(page[i]).0.timestamp == content[page[i]]
    {
      var p := MemberIndex(z, page[i]);
      ToMapAt(z, p);
      assert key in st && z[p] in st[key];
      ZChannelInjective(JsonToMessage(page[i]).0.channelId, channelId);
    }
  }
}
