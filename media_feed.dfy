/**
 * The shuffled media feed of app/api/medias/feed/route.ts: the eligible
 * media, in an order fixed by a per-session seed, served a page at a time
 * with an offset cursor.
 *
 * The store's `ORDER BY md5(concat("id", seed))` is the parameter `key`
 * applied to the id followed by the seed; the SQL query itself becomes the
 * filter, the sort and the slice below.
 */
module MediaFeed {
  import opened Wrappers
  import opened JsText
  import opened Sorting

  datatype Media = Media(id: string, participantId: string, isNsfw: bool)

  /** The query string parameters the handler reads; None is an absent parameter. */
  datatype FeedQuery = FeedQuery(seed: Option<string>, participantId: Option<string>,
                                 cursor: Option<string>, take: Option<string>)

  /** `{ items, nextCursor }` with status 200, or the 400 for a missing seed. */
  datatype FeedReply = Page(items: seq<Media>, nextCursor: Option<nat>) | BadRequest(message: string)

  const DEFAULT_TAKE: int := 10
  const MAX_TAKE: int := 30

  /** `raw || fallback` for a query parameter: absent and empty both fall back. */
  function OrDefault(raw: Option<string>, fallback: string): (r: string)
    ensures raw.Some? && raw.value != "" ==> r == raw.value
    ensures raw.None? || raw == Some("") ==> r == fallback
  {
    if raw.Some? && raw.value != "" then raw.value else fallback
  }

  /** The fallback texts of the two parameters read as the numbers they spell. */
  lemma FallbackValues()
    ensures ParseInt("0") == Some(0) && ParseInt("10") == Some(10)
  {
    ParseIntDecimal(0);
    ParseIntDecimal(10);
    assert Decimal(0) == "0";
    assert Decimal(10) == Decimal(1) + "0";
  }

  /** `Math.max(0, Number.parseInt(cursorRaw || "0", 10) || 0)`. */
  function ParseCursor(raw: Option<string>): nat {
    match ParseInt(OrDefault(raw, "0"))
    case None => 0
    case Some(n) => if n > 0 then n else 0
  }

  /** An absent or empty cursor parameter is the first page. */
  lemma CursorDefault(raw: Option<string>)
    ensures raw.None? || raw == Some("") ==> ParseCursor(raw) == 0
  {
    if raw.None? || raw == Some("") {
      FallbackValues();
      CursorOfZero(raw);
    }
  }

  lemma CursorOfZero(raw: Option<string>)
    requires ParseInt(OrDefault(raw, "0")) == Some(0)
    ensures ParseCursor(raw) == 0
  {
  }

  /**
   * Otherwise the cursor is the offset the parameter spells when that is a
   * number of at least zero, and 0 when it is not a number or is negative.
   */
  lemma CursorParsing(raw: Option<string>)
    ensures ParseInt(OrDefault(raw, "0")).None? ==> ParseCursor(raw) == 0
    ensures ParseInt(OrDefault(raw, "0")).Some? && ParseInt(OrDefault(raw, "0")).value >= 0 ==>
              ParseCursor(raw) == ParseInt(OrDefault(raw, "0")).value
    ensures ParseInt(OrDefault(raw, "0")).Some? && ParseInt(OrDefault(raw, "0")).value < 0 ==> ParseCursor(raw) == 0
  {
  }

  /** A cursor the handler wrote out as String(n) is read back as n. */
  lemma CursorOfDecimal(n: nat)
    ensures ParseCursor(Some(Decimal(n))) == n
  {
    ParseIntDecimal(n);
  }

  /** `Math.min(30, Math.max(1, Number.parseInt(takeRaw || "10", 10) || 10))`. */
  function ParseTake(raw: Option<string>): (t: int)
    ensures 1 <= t <= MAX_TAKE
  {
    var unclamped := match ParseInt(OrDefault(raw, "10"))
      case None => DEFAULT_TAKE
      case Some(n) => if n != 0 then n else DEFAULT_TAKE;
    var atLeastOne := if unclamped > 1 then unclamped else 1;
    if atLeastOne < MAX_TAKE then atLeastOne else MAX_TAKE
  }

  /** An absent or empty page-size parameter asks for 10. */
  lemma TakeDefault(raw: Option<string>)
    ensures raw.None? || raw == Some("") ==> ParseTake(raw) == DEFAULT_TAKE
  {
    if raw.None? || raw == Some("") {
      FallbackValues();
      TakeOfTen(raw);
    }
  }

  lemma TakeOfTen(raw: Option<string>)
    requires ParseInt(OrDefault(raw, "10")) == Some(10)
    ensures ParseTake(raw) == DEFAULT_TAKE
  {
  }

  /**
   * Otherwise the page size is 10 when the parameter is not a number or is
   * 0, and the number it spells raised to 1 and capped at 30 otherwise.
   */
  lemma TakeParsing(raw: Option<string>)
    ensures ParseInt(OrDefault(raw, "10")) in {None, Some(0)} ==> ParseTake(raw) == DEFAULT_TAKE
    ensures ParseInt(OrDefault(raw, "10")).Some? && 1 <= ParseInt(OrDefault(raw, "10")).value <= MAX_TAKE ==>
              ParseTake(raw) == ParseInt(OrDefault(raw, "10")).value
    ensures ParseInt(OrDefault(raw, "10")).Some? && ParseInt(OrDefault(raw, "10")).value > MAX_TAKE ==>
              ParseTake(raw) == MAX_TAKE
    ensures ParseInt(OrDefault(raw, "10")).Some? && ParseInt(OrDefault(raw, "10")).value < 0 ==> ParseTake(raw) == 1
  {
  }

  /** `searchParams.get("participantId") || undefined`. */
  function ParticipantFilter(raw: Option<string>): (r: Option<string>)
    ensures r.Some? ==> r.value != ""
  {
    if raw.Some? && raw.value != "" then raw else None
  }

  /** The WHERE clause: not NSFW and, when a participant is given, that participant's. */
  predicate Eligible(m: Media, participant: Option<string>) {
    !m.isNsfw && (participant.None? || m.participantId == participant.value)
  }

  /** The eligible media, in their original order. */
  function Filter(media: seq<Media>, participant: Option<string>): (r: seq<Media>)
    ensures |r| <= |media|
    ensures forall i :: 0 <= i < |r| ==> Eligible(r[i], participant)
    ensures forall m :: multiset(r)[m] == if Eligible(m, participant) then multiset(media)[m] else 0
  {
    if media == [] then []
    else
      assert media == [media[0]] + media[1..];
      var rest := Filter(media[1..], participant);
      if Eligible(media[0], participant) then [media[0]] + rest else rest
  }

  /** The seeded order: by the key of the id followed by the seed. */
  function SeededLe(key: string -> int, seed: string): (Media, Media) -> bool {
    (a: Media, b: Media) => key(a.id + seed) <= key(b.id + seed)
  }

  lemma SeededLeIsPreorder(key: string -> int, seed: string)
    ensures Total(SeededLe(key, seed)) && Transitive(SeededLe(key, seed))
  {
  }

  /** The eligible media in the seeded order: the rows the query visits, before OFFSET and LIMIT. */
  function Ordered(media: seq<Media>, participant: Option<string>, seed: string, key: string -> int)
    : (r: seq<Media>)
    ensures multiset(r) == multiset(Filter(media, participant))
    ensures SortedBy(r, SeededLe(key, seed))
    ensures |r| <= |media|
  {
    SeededLeIsPreorder(key, seed);
    var f := Filter(media, participant);
    assert |multiset(f)| == |f|;
    InsertionSort(f, SeededLe(key, seed))
  }

  /**
   * With no two eligible media sharing a key, the order is the only one the
   * store can produce: every other sorted arrangement of the eligible media
   * is this one.
   */
  lemma OrderedIsUnique(media: seq<Media>, participant: Option<string>, seed: string,
                        key: string -> int, other: seq<Media>)
    requires StrictOn(Filter(media, participant), SeededLe(key, seed))
    requires multiset(other) == multiset(Filter(media, participant))
    requires SortedBy(other, SeededLe(key, seed))
    ensures other == Ordered(media, participant, seed, key)
  {
    var r := Ordered(media, participant, seed, key);
    var f := Filter(media, participant);
    assert forall x :: x in r <==> x in f by {
      forall x ensures x in r <==> x in f {
        assert x in r <==> x in multiset(r);
        assert x in f <==> x in multiset(f);
      }
    }
    SortedUnique(r, other, SeededLe(key, seed));
  }

  /** OFFSET `cursor` LIMIT `take` over `s`. */
  function Window(s: seq<Media>, cursor: nat, take: nat): (r: seq<Media>)
    requires take >= 1
    ensures |r| <= take
    ensures cursor + take <= |s| ==> |r| == take
    ensures cursor + take > |s| ==> |r| < take
    ensures forall i :: 0 <= i < |r| ==> cursor + i < |s| && r[i] == s[cursor + i]
    ensures cursor <= |s| ==> r == s[cursor..if cursor + take <= |s| then cursor + take else |s|]
  {
    if cursor >= |s| then []
    else if cursor + take <= |s| then s[cursor..cursor + take]
    else s[cursor..]
  }

  /**
   * One page of `ordered`: the window at `cursor`, and a next cursor exactly
   * when the window came back full, which only happens while there may be
   * more to read.
   */
  function PageOf(ordered: seq<Media>, cursor: nat, take: int): (r: FeedReply)
    requires take >= 1
    ensures r.Page? && r.items == Window(ordered, cursor, take)
    ensures |r.items| <= take
    ensures r.nextCursor.Some? <==> |r.items| == take
    ensures r.nextCursor.Some? <==> cursor + take <= |ordered|
    ensures r.nextCursor.Some? ==> r.nextCursor.value == cursor + take
  {
    var items := Window(ordered, cursor, take);
    var nextCursor: Option<nat> := if |items| == take && |items| > 0 then Some(cursor + |items|) else None;
    Page(items, nextCursor)
  }

  /** GET. */
  function FeedGet(media: seq<Media>, q: FeedQuery, key: string -> int): (r: FeedReply)
    ensures q.seed.None? || q.seed == Some("") <==> r == BadRequest("seed is required")
    ensures r.Page? ==>
              r == PageOf(Ordered(media, ParticipantFilter(q.participantId), q.seed.value, key),
                          ParseCursor(q.cursor), ParseTake(q.take))
  {
    var seed := OrDefault(q.seed, "");
    if seed == "" then BadRequest("seed is required")
    else
      var ordered := Ordered(media, ParticipantFilter(q.participantId), seed, key);
      PageOf(ordered, ParseCursor(q.cursor), ParseTake(q.take))
  }

  /** Every item served is an eligible medium of the store, and a page holds at most `take` of them. */
  lemma FeedItemsEligible(media: seq<Media>, q: FeedQuery, key: string -> int)
    requires FeedGet(media, q, key).Page?
    ensures var r := FeedGet(media, q, key);
            && |r.items| <= ParseTake(q.take)
            && forall i :: 0 <= i < |r.items| ==>
                 Eligible(r.items[i], ParticipantFilter(q.participantId)) && r.items[i] in media
  {
    var participant := ParticipantFilter(q.participantId);
    var ordered := Ordered(media, participant, q.seed.value, key);
    var items := FeedGet(media, q, key).items;
    forall i | 0 <= i < |items|
      ensures Eligible(items[i], participant) && items[i] in media
    {
      var m := items[i];
      assert m == ordered[ParseCursor(q.cursor) + i];
      assert m in multiset(ordered);
      assert multiset(Filter(media, participant))[m] > 0;
    }
  }

  /** The query that asks for the page after `q`'s, as the client builds it from nextCursor. */
  function NextQuery(q: FeedQuery, next: nat): FeedQuery {
    q.(cursor := Some(Decimal(next)))
  }

  /**
   * The pages a client collects by starting at `q` and following nextCursor
   * until it is null, concatenated.
   */
  function Walk(media: seq<Media>, q: FeedQuery, key: string -> int): seq<Media>
    decreases |media| + 1 - ParseCursor(q.cursor)
  {
    match FeedGet(media, q, key)
    case BadRequest(_) => []
    case Page(items, nextCursor) =>
      if nextCursor.None? then items
      else
        CursorOfDecimal(nextCursor.value);
        items + Walk(media, NextQuery(q, nextCursor.value), key)
  }

  /** The next query reads back the cursor it was built with and asks for the same seed, participant and page size. */
  lemma NextQueryCursor(q: FeedQuery, n: nat)
    ensures var next := NextQuery(q, n);
            ParseCursor(next.cursor) == n &&
            next.seed == q.seed && next.participantId == q.participantId && next.take == q.take
  {
    CursorOfDecimal(n);
  }

  /**
   * One step of the walk: the next query asks for the same seed and
   * participant one page further into the same seeded order, and once the
   * walk from there covers the rest of the order, the walk from here
   * covers the rest of the order from this cursor.
   */
  lemma WalkStep(media: seq<Media>, q: FeedQuery, key: string -> int) returns (next: FeedQuery)
    requires q.seed.Some? && q.seed.value != ""
    requires FeedGet(media, q, key).nextCursor.Some?
    ensures next.seed == q.seed
    ensures ParseCursor(q.cursor) < ParseCursor(next.cursor) <=
            |Ordered(media, ParticipantFilter(next.participantId), next.seed.value, key)|
    ensures Walk(media, next, key) ==
              Ordered(media, ParticipantFilter(next.participantId), next.seed.value, key)[ParseCursor(next.cursor)..]
            ==>
              Walk(media, q, key) ==
              Ordered(media, ParticipantFilter(q.participantId), q.seed.value, key)[ParseCursor(q.cursor)..]
  {
    var r := FeedGet(media, q, key);
    next := NextQuery(q, r.nextCursor.value);
    NextQueryCursor(q, r.nextCursor.value);
    var ordered := Ordered(media, ParticipantFilter(q.participantId), q.seed.value, key);
    var cursor, take := ParseCursor(q.cursor), ParseTake(q.take);
    assert r == PageOf(ordered, cursor, take);
    assert Walk(media, q, key) == r.items + Walk(media, next, key);
    PagesJoin(ordered, cursor, take, r.items, ordered[cursor + take..]);
  }

  lemma PagesJoin<T>(s: seq<T>, cursor: nat, take: nat, items: seq<T>, rest: seq<T>)
    requires cursor + take <= |s| && items == s[cursor..cursor + take] && rest == s[cursor + take..]
    ensures items + rest == s[cursor..]
  {
  }

  /** The last page is the rest of the order. */
  lemma WalkEnd(media: seq<Media>, q: FeedQuery, key: string -> int)
    requires q.seed.Some? && q.seed.value != ""
    requires ParseCursor(q.cursor) <= |Ordered(media, ParticipantFilter(q.participantId), q.seed.value, key)|
    requires FeedGet(media, q, key).nextCursor.None?
    ensures Walk(media, q, key) ==
            Ordered(media, ParticipantFilter(q.participantId), q.seed.value, key)[ParseCursor(q.cursor)..]
  {
    var ordered := Ordered(media, ParticipantFilter(q.participantId), q.seed.value, key);
    var cursor, take := ParseCursor(q.cursor), ParseTake(q.take);
    var r := FeedGet(media, q, key);
    assert r == PageOf(ordered, cursor, take);
    assert Walk(media, q, key) == r.items;
    assert Window(ordered, cursor, take) == ordered[cursor..];
  }

  /**
   * Paging neither repeats nor skips: from any cursor up to the end of the
   * seeded order, the pages concatenate to the rest of that order, so from
   * the first page they are every eligible medium exactly once.
   */
  lemma {:induction false} WalkCovers(media: seq<Media>, q: FeedQuery, key: string -> int)
    requires q.seed.Some? && q.seed.value != ""
    requires ParseCursor(q.cursor) <= |Ordered(media, ParticipantFilter(q.participantId), q.seed.value, key)|
    ensures Walk(media, q, key) ==
            Ordered(media, ParticipantFilter(q.participantId), q.seed.value, key)[ParseCursor(q.cursor)..]
    decreases |media| + 1 - ParseCursor(q.cursor)
  {
    if FeedGet(media, q, key).nextCursor.Some? {
      var next := WalkStep(media, q, key);
      WalkCovers(media, next, key);
    } else {
      WalkEnd(media, q, key);
    }
  }

  /** The whole walk from the first page is a rearrangement of the eligible media. */
  lemma WalkIsEligibleMedia(media: seq<Media>, q: FeedQuery, key: string -> int)
    requires q.seed.Some? && q.seed.value != "" && q.cursor.None?
    ensures multiset(Walk(media, q, key)) == multiset(Filter(media, ParticipantFilter(q.participantId)))
  {
    CursorDefault(q.cursor);
    WalkCovers(media, q, key);
    var ordered := Ordered(media, ParticipantFilter(q.participantId), q.seed.value, key);
    assert ordered[0..] == ordered;
  }
}
