/**
 * The reaction-type administration of app/api/reactions/types/route.ts: the
 * table of reaction types, listed by anyone and changed by signed-in users.
 *
 * The store is the class `ReactionTypeTable`; its `rows` are the table. The
 * signed-in user is the session's user id (`auth().userId`); a request body
 * is None when it is not valid JSON, and a body that is `null` or not an
 * object has every field absent. The id the store generates and the creation
 * time are parameters.
 */
module ReactionTypes {
  import opened Wrappers
  import opened JsText
  import opened JsValue
  import opened Sorting

  datatype ReactionType = ReactionType(
    id: string, key: string, labelText: string, emoji: Option<string>,
    order: int, isActive: bool, createdAt: int)

  /** The fields the handlers destructure from the body; None is `undefined`. */
  datatype Body = Body(id: Option<Json>, key: Option<Json>, labelText: Option<Json>,
                       emoji: Option<Json>, order: Option<Json>, isActive: Option<Json>)

  /** A created or updated record, `{ success: true }`, or a text reply with an error status. */
  datatype Reply = Record(record: ReactionType) | Deleted | Refused(status: int, message: string)

  const INTERNAL_ERROR: string := "Internal error"
  const UNAUTHENTICATED: string := "Unauthenticated"

  /** `!userId` is false. */
  predicate SignedIn(userId: Option<string>) {
    userId.Some? && userId.value != ""
  }

  /** `String(key).trim().toUpperCase()`. */
  function NormalKey(v: Json): (k: string)
    ensures IsTrimmed(k) && ToUpper(k) == k
  {
    var t := Trim(ToJsString(v));
    ToUpperKeepsTrimmed(t);
    ToUpperIdempotent(t);
    ToUpper(t)
  }

  /** `String(label).trim()`. */
  function NormalLabel(v: Json): (l: string)
    ensures IsTrimmed(l)
  {
    Trim(ToJsString(v))
  }

  /** Normalising a key that is already normal changes nothing, so re-submitting a stored key stores the same key. */
  lemma NormalKeyIdempotent(v: Json)
    ensures NormalKey(JStr(NormalKey(v))) == NormalKey(v)
  {
    var k := NormalKey(v);
    assert ToJsString(JStr(k)) == k;
    assert Trim(k) == k;
  }

  /** Normalising a label that is already normal changes nothing. */
  lemma NormalLabelIdempotent(v: Json)
    ensures NormalLabel(JStr(NormalLabel(v))) == NormalLabel(v)
  {
    var l := NormalLabel(v);
    assert ToJsString(JStr(l)) == l;
  }

  /** `emoji ? String(emoji) : null`. */
  function EmojiOf(v: Json): (e: Option<string>)
    ensures e.None? <==> !Truthy(Some(v))
    ensures e.Some? ==> e.value == ToJsString(v)
  {
    if Truthy(Some(v)) then Some(ToJsString(v)) else None
  }

  /** The key is trimmed and upper case, and the label trimmed: what both writes guarantee. */
  predicate Normalised(r: ReactionType) {
    IsTrimmed(r.key) && ToUpper(r.key) == r.key && IsTrimmed(r.labelText)
  }

  /** The record POST creates from a body with a truthy key and label. */
  function NewRecord(b: Body, id: string, now: int): (r: ReactionType)
    requires Truthy(b.key) && Truthy(b.labelText)
    ensures Normalised(r) && r.id == id && r.createdAt == now
    ensures r.key == NormalKey(b.key.value) && r.labelText == NormalLabel(b.labelText.value)
    ensures r.emoji.None? <==> !Truthy(b.emoji)
    ensures r.emoji.Some? ==> r.emoji.value == ToJsString(b.emoji.value)
    ensures b.order.Some? && b.order.value.JNum? ==> r.order == b.order.value.n
    ensures !(b.order.Some? && b.order.value.JNum?) ==> r.order == 0
    ensures b.isActive.Some? && b.isActive.value.JBool? ==> r.isActive == b.isActive.value.b
    ensures !(b.isActive.Some? && b.isActive.value.JBool?) ==> r.isActive
  {
    ReactionType(
      id,
      NormalKey(b.key.value),
      NormalLabel(b.labelText.value),
      if b.emoji.Some? then EmojiOf(b.emoji.value) else None,
      match b.order case Some(JNum(n)) => n case _ => 0,
      match b.isActive case Some(JBool(x)) => x case _ => true,
      now)
  }

  /** `Number(order)` is a number where an order is given; the store refuses NaN. */
  predicate OrderAcceptable(b: Body) {
    b.order.None? || ToNumber(b.order.value).Some?
  }

  /** The record PATCH leaves: each field the body gives (even as `null`) is replaced, coerced as the handler does. */
  function Patched(r: ReactionType, b: Body): (p: ReactionType)
    requires OrderAcceptable(b)
    ensures p.id == r.id && p.createdAt == r.createdAt
    ensures b.key.None? ==> p.key == r.key
    ensures b.key.Some? ==> p.key == NormalKey(b.key.value)
    ensures b.labelText.None? ==> p.labelText == r.labelText
    ensures b.labelText.Some? ==> p.labelText == NormalLabel(b.labelText.value)
    ensures b.emoji.None? ==> p.emoji == r.emoji
    ensures b.emoji.Some? ==> p.emoji == EmojiOf(b.emoji.value)
    ensures b.order.None? ==> p.order == r.order
    ensures b.order.Some? ==> Some(p.order) == ToNumber(b.order.value)
    ensures b.isActive.None? ==> p.isActive == r.isActive
    ensures b.isActive.Some? ==> p.isActive == Truthy(b.isActive)
    ensures Normalised(r) ==> Normalised(p)
  {
    r.(key := if b.key.Some? then NormalKey(b.key.value) else r.key,
       labelText := if b.labelText.Some? then NormalLabel(b.labelText.value) else r.labelText,
       emoji := if b.emoji.Some? then EmojiOf(b.emoji.value) else r.emoji,
       order := if b.order.Some? then ToNumber(b.order.value).value else r.order,
       isActive := if b.isActive.Some? then Truthy(b.isActive) else r.isActive)
  }

  /** Applying the same patch twice is applying it once. */
  lemma PatchIdempotent(r: ReactionType, b: Body)
    requires OrderAcceptable(b)
    ensures Patched(Patched(r, b), b) == Patched(r, b)
  {
  }

  /** A body with no fields leaves the record as it was. */
  lemma EmptyPatch(r: ReactionType)
    ensures Patched(r, Body(None, None, None, None, None, None)) == r
  {
  }

  predicate UniqueIds(rows: seq<ReactionType>) {
    forall i, j :: 0 <= i < j < |rows| ==> rows[i].id != rows[j].id
  }

  predicate UniqueKeys(rows: seq<ReactionType>) {
    forall i, j :: 0 <= i < j < |rows| ==> rows[i].key != rows[j].key
  }

  /** The table's invariant: ids and keys are unique and every record is normalised. */
  predicate TableInvariant(rows: seq<ReactionType>) {
    UniqueIds(rows) && UniqueKeys(rows) && forall i :: 0 <= i < |rows| ==> Normalised(rows[i])
  }

  predicate HasId(rows: seq<ReactionType>, id: string) {
    exists i :: 0 <= i < |rows| && rows[i].id == id
  }

  predicate HasKey(rows: seq<ReactionType>, key: string) {
    exists i :: 0 <= i < |rows| && rows[i].key == key
  }

  /** Some record other than the one at `at` has `key`. */
  predicate KeyUsedElsewhere(rows: seq<ReactionType>, key: string, at: nat) {
    exists j :: 0 <= j < |rows| && j != at && rows[j].key == key
  }

  /** Where the record with `id` is. */
  function IndexOfId(rows: seq<ReactionType>, id: string): (r: Option<nat>)
    ensures r.Some? <==> HasId(rows, id)
    ensures r.Some? ==> r.value < |rows| && rows[r.value].id == id
  {
    if rows == [] then None
    else if rows[0].id == id then Some(0)
    else
      match IndexOfId(rows[1..], id)
      case None =>
        assert forall i :: 1 <= i < |rows| ==> rows[i] == rows[1..][i - 1];
        None
      case Some(i) => Some(i + 1)
  }

  /** The table after deleting the record with `id`. */
  function WithoutId(rows: seq<ReactionType>, id: string): (r: seq<ReactionType>)
    ensures forall x :: x in r <==> x in rows && x.id != id
    ensures |r| <= |rows|
    ensures !HasId(rows, id) ==> r == rows
  {
    if rows == [] then []
    else
      assert rows == [rows[0]] + rows[1..];
      var rest := WithoutId(rows[1..], id);
      if rows[0].id == id then rest else [rows[0]] + rest
  }

  /** With unique ids, deleting the id of the record at `i` removes that record alone and keeps the others in order. */
  lemma {:induction false} DeleteRemovesOne(rows: seq<ReactionType>, i: nat)
    requires UniqueIds(rows) && i < |rows|
    ensures WithoutId(rows, rows[i].id) == rows[..i] + rows[i + 1..]
  {
    var id := rows[i].id;
    UniqueIdsTail(rows);
    var tail := rows[1..];
    if i == 0 {
      assert !HasId(tail, id) by {
        forall j | 0 <= j < |tail| ensures tail[j].id != id {
          assert tail[j] == rows[j + 1];
        }
      }
      assert WithoutId(rows, id) == WithoutId(tail, id);
      assert rows[..0] + rows[1..] == tail;
    } else {
      assert tail[i - 1] == rows[i];
      DeleteRemovesOne(tail, i - 1);
      assert WithoutId(rows, id) == [rows[0]] + WithoutId(tail, id);
      SplitAround(rows, i);
    }
  }

  lemma SplitAround<T>(s: seq<T>, i: nat)
    requires 0 < i < |s|
    ensures [s[0]] + (s[1..][..i - 1] + s[1..][i..]) == s[..i] + s[i + 1..]
  {
    assert s[1..][..i - 1] == s[1..i];
    assert s[1..][i..] == s[i + 1..];
    assert [s[0]] + s[1..i] == s[..i];
  }

  lemma UniqueIdsTail(rows: seq<ReactionType>)
    requires UniqueIds(rows) && rows != []
    ensures UniqueIds(rows[1..])
  {
    var tail := rows[1..];
    forall a, b | 0 <= a < b < |tail| ensures tail[a].id != tail[b].id {
      assert tail[a] == rows[a + 1] && tail[b] == rows[b + 1];
    }
  }

  /** `searchParams.get("all") === "1"` with a signed-in user: the only way inactive types are listed. */
  predicate ShowAll(all: Option<string>, userId: Option<string>) {
    all == Some("1") && SignedIn(userId)
  }

  /** `where: { isActive: true }`. */
  function ActiveOnly(rows: seq<ReactionType>): (r: seq<ReactionType>)
    ensures forall i :: 0 <= i < |r| ==> r[i].isActive
    ensures forall x :: multiset(r)[x] == if x.isActive then multiset(rows)[x] else 0
  {
    if rows == [] then []
    else
      assert rows == [rows[0]] + rows[1..];
      var rest := ActiveOnly(rows[1..]);
      if rows[0].isActive then [rows[0]] + rest else rest
  }

  /** `orderBy: [{ order: "asc" }, { createdAt: "asc" }]`. */
  function ListLe(): (ReactionType, ReactionType) -> bool {
    (a: ReactionType, b: ReactionType) => a.order < b.order || (a.order == b.order && a.createdAt <= b.createdAt)
  }

  lemma ListLeIsPreorder()
    ensures Total(ListLe()) && Transitive(ListLe())
  {
  }

  /** GET. */
  function Listing(rows: seq<ReactionType>, all: Option<string>, userId: Option<string>): (r: seq<ReactionType>)
    ensures ShowAll(all, userId) ==> multiset(r) == multiset(rows)
    ensures !ShowAll(all, userId) ==> multiset(r) == multiset(ActiveOnly(rows))
    ensures !ShowAll(all, userId) ==> forall i :: 0 <= i < |r| ==> r[i].isActive
    ensures SortedBy(r, ListLe())
  {
    ListLeIsPreorder();
    var shown := if ShowAll(all, userId) then rows else ActiveOnly(rows);
    var r := InsertionSort(shown, ListLe());
    if ShowAll(all, userId) then r
    else
      ActiveAfterSort(r, rows);
      r
  }

  lemma ActiveAfterSort(r: seq<ReactionType>, rows: seq<ReactionType>)
    requires multiset(r) == multiset(ActiveOnly(rows))
    ensures forall i :: 0 <= i < |r| ==> r[i].isActive
  {
    forall i | 0 <= i < |r| ensures r[i].isActive {
      assert r[i] in multiset(r);
    }
  }

  /** Consecutive entries of a listing never go down in order, nor, at equal order, in creation time. */
  lemma ListingOrdered(rows: seq<ReactionType>, all: Option<string>, userId: Option<string>, i: nat)
    requires i + 1 < |Listing(rows, all, userId)|
    ensures var r := Listing(rows, all, userId);
            r[i].order <= r[i + 1].order &&
            (r[i].order == r[i + 1].order ==> r[i].createdAt <= r[i + 1].createdAt)
  {
    var r := Listing(rows, all, userId);
    assert ListLe()(r[i], r[i + 1]);
  }

  /** An inactive type is listed exactly when a signed-in user asks for all types. */
  lemma InactiveListedOnlyOnRequest(rows: seq<ReactionType>, all: Option<string>, userId: Option<string>,
                                    x: ReactionType)
    requires x in rows && !x.isActive
    ensures x in Listing(rows, all, userId) <==> ShowAll(all, userId)
  {
    var r := Listing(rows, all, userId);
    assert x in multiset(rows);
    assert x in r <==> x in multiset(r);
  }

  /** The reaction-type table of the store. */
  class ReactionTypeTable {
    var rows: seq<ReactionType>

    ghost predicate Valid()
      reads this
    {
      TableInvariant(rows)
    }

    constructor()
      ensures rows == [] && Valid()
    {
      rows := [];
    }

    /** POST. */
    method Post(userId: Option<string>, body: Option<Body>, newId: string, now: int) returns (reply: Reply)
      requires Valid()
      modifies this
      ensures Valid()
      ensures body.None? ==> reply == Refused(500, INTERNAL_ERROR)
      ensures body.Some? && !SignedIn(userId) ==> reply == Refused(401, UNAUTHENTICATED)
      ensures body.Some? && SignedIn(userId) && !Truthy(body.value.key) ==>
                reply == Refused(400, "Key is required")
      ensures body.Some? && SignedIn(userId) && Truthy(body.value.key) && !Truthy(body.value.labelText) ==>
                reply == Refused(400, "Label is required")
      ensures reply.Record? <==>
                && body.Some? && SignedIn(userId) && Truthy(body.value.key) && Truthy(body.value.labelText)
                && !HasId(old(rows), newId) && !HasKey(old(rows), NormalKey(body.value.key.value))
      ensures reply.Record? ==>
                reply.record == NewRecord(body.value, newId, now) && rows == old(rows) + [reply.record]
      ensures !reply.Record? ==> reply.Refused? && rows == old(rows)
    {
      if body.None? {
        return Refused(500, INTERNAL_ERROR);
      }
      var b := body.value;
      if !SignedIn(userId) {
        return Refused(401, UNAUTHENTICATED);
      }
      if !Truthy(b.key) {
        return Refused(400, "Key is required");
      }
      if !Truthy(b.labelText) {
        return Refused(400, "Label is required");
      }
      var record := NewRecord(b, newId, now);
      if HasId(rows, newId) || HasKey(rows, record.key) {
        return Refused(500, INTERNAL_ERROR);
      }
      AppendKeepsInvariant(rows, record);
      rows := rows + [record];
      reply := Record(record);
    }

    /** PATCH. */
    method Patch(userId: Option<string>, body: Option<Body>) returns (reply: Reply)
      requires Valid()
      modifies this
      ensures Valid()
      ensures body.None? ==> reply == Refused(500, INTERNAL_ERROR)
      ensures body.Some? && !SignedIn(userId) ==> reply == Refused(401, UNAUTHENTICATED)
      ensures body.Some? && SignedIn(userId) && !Truthy(body.value.id) ==>
                reply == Refused(400, "ReactionType id is required")
      ensures reply.Record? <==>
                && body.Some? && SignedIn(userId) && Truthy(body.value.id)
                && HasId(old(rows), ToJsString(body.value.id.value))
                && OrderAcceptable(body.value)
                && var i := IndexOfId(old(rows), ToJsString(body.value.id.value)).value;
                   !KeyUsedElsewhere(old(rows), Patched(old(rows)[i], body.value).key, i)
      ensures reply.Record? ==>
                var i := IndexOfId(old(rows), ToJsString(body.value.id.value)).value;
                reply.record == Patched(old(rows)[i], body.value) && rows == old(rows)[i := reply.record]
      ensures !reply.Record? ==> reply.Refused? && rows == old(rows)
    {
      if body.None? {
        return Refused(500, INTERNAL_ERROR);
      }
      var b := body.value;
      if !SignedIn(userId) {
        return Refused(401, UNAUTHENTICATED);
      }
      if !Truthy(b.id) {
        return Refused(400, "ReactionType id is required");
      }
      var at := IndexOfId(rows, ToJsString(b.id.value));
      if at.None? || !OrderAcceptable(b) {
        return Refused(500, INTERNAL_ERROR);
      }
      var i := at.value;
      var updated := Patched(rows[i], b);
      if KeyUsedElsewhere(rows, updated.key, i) {
        return Refused(500, INTERNAL_ERROR);
      }
      PatchKeepsInvariant(rows, i, b);
      rows := rows[i := updated];
      reply := Record(updated);
    }

    /** DELETE. */
    method Delete(userId: Option<string>, body: Option<Body>) returns (reply: Reply)
      requires Valid()
      modifies this
      ensures Valid()
      ensures body.None? ==> reply == Refused(500, INTERNAL_ERROR)
      ensures body.Some? && !SignedIn(userId) ==> reply == Refused(401, UNAUTHENTICATED)
      ensures body.Some? && SignedIn(userId) && !Truthy(body.value.id) ==>
                reply == Refused(400, "ReactionType id is required")
      ensures reply == Deleted <==>
                body.Some? && SignedIn(userId) && Truthy(body.value.id) &&
                HasId(old(rows), ToJsString(body.value.id.value))
      ensures reply == Deleted ==> rows == WithoutId(old(rows), ToJsString(body.value.id.value))
      ensures reply != Deleted ==> reply.Refused? && rows == old(rows)
    {
      if body.None? {
        return Refused(500, INTERNAL_ERROR);
      }
      var b := body.value;
      if !SignedIn(userId) {
        return Refused(401, UNAUTHENTICATED);
      }
      if !Truthy(b.id) {
        return Refused(400, "ReactionType id is required");
      }
      var id := ToJsString(b.id.value);
      if !HasId(rows, id) {
        return Refused(500, INTERNAL_ERROR);
      }
      DeleteKeepsInvariant(rows, id);
      rows := WithoutId(rows, id);
      reply := Deleted;
    }
  }

  /** Adding a normalised record with a new id and a new key keeps the table invariant. */
  lemma AppendKeepsInvariant(rows: seq<ReactionType>, record: ReactionType)
    requires TableInvariant(rows) && Normalised(record)
    requires !HasId(rows, record.id) && !HasKey(rows, record.key)
    ensures TableInvariant(rows + [record])
  {
  }

  /** Replacing a record by its patch, when the patched key is nobody else's, keeps the table invariant. */
  lemma PatchKeepsInvariant(rows: seq<ReactionType>, i: nat, b: Body)
    requires TableInvariant(rows) && i < |rows| && OrderAcceptable(b)
    requires !KeyUsedElsewhere(rows, Patched(rows[i], b).key, i)
    ensures TableInvariant(rows[i := Patched(rows[i], b)])
  {
    var p := Patched(rows[i], b);
    var r := rows[i := p];
    forall a, c | 0 <= a < c < |r| ensures r[a].key != r[c].key && r[a].id != r[c].id {
      if a == i {
        assert r[c] == rows[c];
      } else if c == i {
        assert r[a] == rows[a];
      }
    }
  }

  lemma RemoveAtKeepsInvariant(rows: seq<ReactionType>, i: nat)
    requires TableInvariant(rows) && i < |rows|
    ensures TableInvariant(rows[..i] + rows[i + 1..])
  {
    var r := rows[..i] + rows[i + 1..];
    assert forall a :: 0 <= a < |r| ==> r[a] == rows[if a < i then a else a + 1];
  }

  /** Removing records keeps the table invariant. */
  lemma DeleteKeepsInvariant(rows: seq<ReactionType>, id: string)
    requires TableInvariant(rows)
    ensures TableInvariant(WithoutId(rows, id))
  {
    if HasId(rows, id) {
      var i := IndexOfId(rows, id).value;
      DeleteRemovesOne(rows, i);
      RemoveAtKeepsInvariant(rows, i);
    }
  }
}
