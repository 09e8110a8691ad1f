/** The in-memory gift list and its optimistic updates: save, toggle the
    excluded flag and delete locally; restore the snapshot when the cloud
    write fails. The outcome of the cloud write is a parameter. */
module GiftList {
  import opened Gifts
  import Text

  /** What the form hands to the save handler: every field of a gift except
      id, createdAt and isDeleted, and the id when an existing gift is edited. */
  datatype Draft = Draft(
    id: Option<string>,
    title: string,
    source: string,
    cost: real,
    recipient: Recipient,
    isReceived: bool,
    payer: Payer,
    isSplit: bool,
    isReturned: bool,
    isRepaid: bool,
    isExcluded: bool,
    occasion: Occasion,
    year: int,
    imageUrl: string,
    productUrl: string,
    trackingUrl: string,
    orderDetailUrl: string)

  /** `data.id ? ... : ...`: an empty id counts as no id. */
  predicate HasId(d: Draft) {
    d.id.Some? && d.id.value != ""
  }

  /** The draft's fields completed with an id, a creation time and a deleted flag. */
  function Complete(d: Draft, id: string, createdAt: Option<int>, isDeleted: bool): Gift {
    Gift(id, d.title, d.source, d.cost, d.recipient, d.isReceived, d.payer, d.isSplit, d.isReturned,
         d.isRepaid, d.isExcluded, isDeleted, d.occasion, d.year, createdAt,
         d.imageUrl, d.productUrl, d.trackingUrl, d.orderDetailUrl)
  }

  /** Array.prototype.find, as the index of the first gift satisfying p. */
  function FirstWhere(gs: seq<Gift>, p: Gift -> bool): (k: Option<nat>)
    ensures k.Some? ==> k.value < |gs| && p(gs[k.value]) && forall j :: 0 <= j < k.value ==> !p(gs[j])
    ensures k.None? ==> forall j :: 0 <= j < |gs| ==> !p(gs[j])
  {
    if gs == [] then None
    else if p(gs[0]) then Some(0)
    else match FirstWhere(gs[1..], p)
      case None => None
      case Some(k) => Some(k + 1)
  }

  function FindById(gs: seq<Gift>, id: string): Option<nat> {
    FirstWhere(gs, (g: Gift) => g.id == id)
  }

  /** The delete handler matches ids after trimming both sides. */
  predicate SameTrimmedId(g: Gift, id: string) {
    Text.Trim(g.id) == Text.Trim(id)
  }

  function FindByTrimmedId(gs: seq<Gift>, id: string): Option<nat> {
    FirstWhere(gs, (g: Gift) => SameTrimmedId(g, id))
  }

  predicate UniqueIds(gs: seq<Gift>) {
    forall i, j :: 0 <= i < |gs| && 0 <= j < |gs| && gs[i].id == gs[j].id ==> i == j
  }

  /** giftToSave: an edit keeps the stored gift's createdAt and isDeleted under
      the draft's fields (neither exists when the id is not in the list); a new
      gift gets the fresh id and timestamp and is not deleted. */
  function GiftToSave(gs: seq<Gift>, d: Draft, newId: string, now: int): (r: Gift)
    ensures r == Complete(d, r.id, r.createdAt, r.isDeleted)
    ensures HasId(d) ==> r.id == d.id.value
    ensures HasId(d) ==>
      forall k :: 0 <= k < |gs| && gs[k].id == d.id.value && (forall j :: 0 <= j < k ==> gs[j].id != d.id.value) ==>
        r.createdAt == gs[k].createdAt && r.isDeleted == gs[k].isDeleted
    ensures HasId(d) && (forall g :: g in gs ==> g.id != d.id.value) ==> r.createdAt.None? && !r.isDeleted
    ensures !HasId(d) ==> r.id == newId && r.createdAt == Some(now) && !r.isDeleted
  {
    if HasId(d) then
      match FindById(gs, d.id.value)
      case Some(k) => Complete(d, d.id.value, gs[k].createdAt, gs[k].isDeleted)
      case None => Complete(d, d.id.value, None, false)
    else Complete(d, newId, Some(now), false)
  }

  /** prev.map(g => g.id === id ? g' : g) */
  function ReplaceById(gs: seq<Gift>, id: string, g': Gift): (r: seq<Gift>)
    ensures |r| == |gs|
    ensures forall i :: 0 <= i < |gs| && gs[i].id != id ==> r[i] == gs[i]
    ensures forall i :: 0 <= i < |gs| && gs[i].id == id ==> r[i] == g'
  {
    seq(|gs|, i requires 0 <= i < |gs| => if gs[i].id == id then g' else gs[i])
  }

  /** The optimistic list after a save. */
  function AfterSave(gs: seq<Gift>, d: Draft, saved: Gift): (r: seq<Gift>)
    ensures !HasId(d) ==> r == [saved] + gs
    ensures HasId(d) ==> |r| == |gs|
    ensures HasId(d) ==> forall i :: 0 <= i < |gs| ==> r[i] == if gs[i].id == d.id.value then saved else gs[i]
  {
    if HasId(d) then ReplaceById(gs, d.id.value, saved) else [saved] + gs
  }

  /** The toggled copy of the first gift with the id; None when there is none. */
  function ToggledGift(gs: seq<Gift>, id: string): (r: Option<Gift>)
    ensures r.None? <==> forall g :: g in gs ==> g.id != id
    ensures forall k :: 0 <= k < |gs| && gs[k].id == id && (forall j :: 0 <= j < k ==> gs[j].id != id) ==>
              r == Some(gs[k].(isExcluded := !gs[k].isExcluded))
  {
    match FindById(gs, id)
    case None => None
    case Some(k) => Some(gs[k].(isExcluded := !gs[k].isExcluded))
  }

  /** The list after toggling: every gift with the id becomes the toggled copy. */
  function Toggled(gs: seq<Gift>, id: string): (r: seq<Gift>)
    ensures |r| == |gs|
    ensures forall i :: 0 <= i < |gs| && gs[i].id != id ==> r[i] == gs[i]
    ensures forall i :: 0 <= i < |gs| && gs[i].id == id ==> ToggledGift(gs, id) == Some(r[i])
  {
    match ToggledGift(gs, id)
    case None => gs
    case Some(g') => ReplaceById(gs, id, g')
  }

  /** prev.filter(g => g.id.trim() !== id.trim()) */
  function WithoutId(gs: seq<Gift>, id: string): seq<Gift> {
    if gs == [] then []
    else (if SameTrimmedId(gs[0], id) then [] else [gs[0]]) + WithoutId(gs[1..], id)
  }

  /** The delete filter drops exactly the gifts with the trimmed id and keeps
      every other gift as often as it occurs. */
  lemma {:induction false} WithoutIdMultiset(gs: seq<Gift>, id: string)
    ensures forall g :: multiset(WithoutId(gs, id))[g] == if SameTrimmedId(g, id) then 0 else multiset(gs)[g]
  {
    if gs != [] {
      assert gs == [gs[0]] + gs[1..];
      WithoutIdMultiset(gs[1..], id);
    }
  }

  /** A single gift is dropped exactly when its trimmed id is the trimmed id. */
  lemma WithoutIdSingle(g: Gift, id: string)
    ensures WithoutId([g], id) == if SameTrimmedId(g, id) then [] else [g]
  {
    assert [g][1..] == [];
  }

  /** The filter keeps the stored order: filtering a concatenation filters each part. */
  lemma {:induction false} WithoutIdAppend(a: seq<Gift>, b: seq<Gift>, id: string)
    ensures WithoutId(a + b, id) == WithoutId(a, id) + WithoutId(b, id)
  {
    if a == [] {
      assert a + b == b;
    } else {
      var x, t := a[0], a[1..];
      var h := if SameTrimmedId(x, id) then [] else [x];
      assert a == [x] + t;
      assert a + b == [x] + (t + b);
      WithoutIdCons(x, t + b, id);
      WithoutIdCons(x, t, id);
      WithoutIdAppend(t, b, id);
      var wt, wb := WithoutId(t, id), WithoutId(b, id);
      assert WithoutId(a + b, id) == h + (wt + wb);
      assert WithoutId(a, id) == h + wt;
      AppendAssociates(h, wt, wb);
    }
  }

  lemma AppendAssociates<T>(a: seq<T>, b: seq<T>, c: seq<T>)
    ensures a + (b + c) == (a + b) + c
  {
  }

  lemma WithoutIdCons(x: Gift, t: seq<Gift>, id: string)
    ensures WithoutId([x] + t, id) == (if SameTrimmedId(x, id) then [] else [x]) + WithoutId(t, id)
  {
    assert ([x] + t)[0] == x && ([x] + t)[1..] == t;
  }

  /** A list holding no gift with the trimmed id passes unchanged, in the same order. */
  lemma {:induction false} WithoutIdNoMatch(gs: seq<Gift>, id: string)
    requires forall i :: 0 <= i < |gs| ==> !SameTrimmedId(gs[i], id)
    ensures WithoutId(gs, id) == gs
  {
    if gs != [] {
      WithoutIdNoMatch(gs[1..], id);
    }
  }

  /** The component state holding the gift list. */
  class GiftStore {
    var gifts: seq<Gift>

    constructor (initial: seq<Gift>)
      ensures gifts == initial
    {
      gifts := initial;
    }

    /** handleSaveGift: apply the save, send the gift, and restore the
        snapshot when the cloud write fails. Returns the gift sent. */
    method SaveGift(d: Draft, newId: string, now: int, cloudOk: bool) returns (sent: Gift)
      modifies this
      ensures sent == GiftToSave(old(gifts), d, newId, now)
      ensures gifts == if cloudOk then AfterSave(old(gifts), d, sent) else old(gifts)
    {
      var giftToSave := GiftToSave(gifts, d, newId, now);
      var oldGifts := gifts;
      gifts := if HasId(d) then ReplaceById(gifts, d.id.value, giftToSave) else [giftToSave] + gifts;
      sent := giftToSave;
      if !cloudOk {
        gifts := oldGifts;
      }
    }

    /** toggleExcluded: nothing happens for an unknown id; otherwise the list
        is updated and the toggled gift is sent. The outcome of the write is
        not looked at, so nothing is rolled back. */
    method ToggleExcluded(id: string) returns (sent: Option<Gift>)
      modifies this
      ensures sent == ToggledGift(old(gifts), id)
      ensures sent.None? <==> forall g :: g in old(gifts) ==> g.id != id
      ensures gifts == Toggled(old(gifts), id)
    {
      var found := FindById(gifts, id);
      if found.None? {
        return None;
      }
      var gift := gifts[found.value];
      var updated := gift.(isExcluded := !gift.isExcluded);
      gifts := ReplaceById(gifts, id, updated);
      sent := Some(updated);
    }

    /** handleDeleteGift: for a known id that the user confirms, drop every gift
        with that trimmed id, send the found gift marked deleted, and restore
        the snapshot when the cloud write fails. */
    method DeleteGift(id: string, confirmed: bool, cloudOk: bool) returns (sent: Option<Gift>)
      modifies this
      ensures sent.Some? <==> FindByTrimmedId(old(gifts), id).Some? && confirmed
      ensures sent.Some? ==> sent.value == old(gifts)[FindByTrimmedId(old(gifts), id).value].(isDeleted := true)
      ensures gifts == if sent.Some? && cloudOk then WithoutId(old(gifts), id) else old(gifts)
    {
      var found := FindByTrimmedId(gifts, id);
      if found.None? || !confirmed {
        return None;
      }
      var giftToDelete := gifts[found.value];
      var oldGifts := gifts;
      gifts := WithoutId(gifts, id);
      sent := Some(giftToDelete.(isDeleted := true));
      if !cloudOk {
        gifts := oldGifts;
      }
    }
  }

  // ---------------------------------------------------------------------
  // Properties of the updates

  /** With unique ids, toggling flips isExcluded of the one gift with the id
      and leaves every other gift as it was. */
  lemma ToggleFlipsOnlyThatGift(gs: seq<Gift>, id: string)
    requires UniqueIds(gs)
    ensures |Toggled(gs, id)| == |gs|
    ensures forall i :: 0 <= i < |gs| ==>
      Toggled(gs, id)[i] == if gs[i].id == id then gs[i].(isExcluded := !gs[i].isExcluded) else gs[i]
  {
  }

  /** With duplicate ids, every gift with the id becomes the toggled copy of the first. */
  lemma ToggleCopiesFirstMatch(gs: seq<Gift>, id: string, k: nat)
    requires FindById(gs, id) == Some(k)
    ensures |Toggled(gs, id)| == |gs|
    ensures forall i :: 0 <= i < |gs| ==>
      Toggled(gs, id)[i] == if gs[i].id == id then gs[k].(isExcluded := !gs[k].isExcluded) else gs[i]
  {
  }

  /** Toggling is undone by toggling again. */
  lemma ToggleTwiceRestores(gs: seq<Gift>, id: string)
    requires UniqueIds(gs)
    ensures Toggled(Toggled(gs, id), id) == gs
  {
    ToggleFlipsOnlyThatGift(gs, id);
    var once := Toggled(gs, id);
    assert UniqueIds(once);
    ToggleFlipsOnlyThatGift(once, id);
  }

  /** Saving an edit of a listed gift replaces it in place, keeping its
      createdAt and isDeleted; no other gift changes and ids stay unique. */
  lemma SaveEditReplacesInPlace(gs: seq<Gift>, d: Draft, newId: string, now: int, k: nat)
    requires HasId(d) && UniqueIds(gs) && k < |gs| && gs[k].id == d.id.value
    ensures var r := AfterSave(gs, d, GiftToSave(gs, d, newId, now));
      && |r| == |gs|
      && r[k] == Complete(d, gs[k].id, gs[k].createdAt, gs[k].isDeleted)
      && (forall i :: 0 <= i < |gs| && i != k ==> r[i] == gs[i])
      && UniqueIds(r)
  {
    var found := FindById(gs, d.id.value);
    assert found == Some(k);
  }

  /** Saving an edit whose id is not listed leaves the list as it was. */
  lemma SaveUnknownIdChangesNothing(gs: seq<Gift>, d: Draft, newId: string, now: int)
    requires HasId(d) && forall g :: g in gs ==> g.id != d.id.value
    ensures AfterSave(gs, d, GiftToSave(gs, d, newId, now)) == gs
  {
  }

  /** Saving a new gift prepends exactly one gift, with the fresh id and
      timestamp, not deleted, excluded as the draft says; with a fresh id the
      ids stay unique. */
  lemma SaveNewPrepends(gs: seq<Gift>, d: Draft, newId: string, now: int)
    requires !HasId(d)
    ensures var g := GiftToSave(gs, d, newId, now);
      && AfterSave(gs, d, g) == [g] + gs
      && g.id == newId && g.createdAt == Some(now) && !g.isDeleted && g.isExcluded == d.isExcluded
      && g.title == d.title && g.cost == d.cost && g.payer == d.payer && g.recipient == d.recipient
    ensures UniqueIds(gs) && (forall g :: g in gs ==> g.id != newId) ==>
      UniqueIds(AfterSave(gs, d, GiftToSave(gs, d, newId, now)))
  {
    var g := GiftToSave(gs, d, newId, now);
    if UniqueIds(gs) && (forall g :: g in gs ==> g.id != newId) {
      var r := [g] + gs;
      forall i, j | 0 <= i < |r| && 0 <= j < |r| && r[i].id == r[j].id ensures i == j {
        if i > 0 { assert r[i] == gs[i - 1]; }
        if j > 0 { assert r[j] == gs[j - 1]; }
      }
    }
  }

  /** The local delete removes every gift whose trimmed id is the trimmed id
      asked for, and keeps every other gift, as often as it occurred. */
  lemma DeleteRemovesOnlyThatId(gs: seq<Gift>, id: string)
    ensures forall g :: g in WithoutId(gs, id) ==> Text.Trim(g.id) != Text.Trim(id)
    ensures forall g :: g in gs && Text.Trim(g.id) != Text.Trim(id) ==>
      multiset(WithoutId(gs, id))[g] == multiset(gs)[g]
  {
    WithoutIdMultiset(gs, id);
    forall g | g in WithoutId(gs, id) ensures Text.Trim(g.id) != Text.Trim(id) {
      assert g in multiset(WithoutId(gs, id));
    }
  }
}
