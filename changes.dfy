/** The change extraction of `Main` (the `Where`/`SelectMany`/`Select` over an
    issue's changelog): history entries at or after the cutoff, and within
    them the items for the summary or the description, each becoming one
    change. Repeated edits of a field are not merged. */
module Changes {
  import opened Jira
  import opened Sequences

  /** One extracted change (`Wann`, `Feld`, `Von`, `Nach`). */
  datatype Change = Change(when: int, field: string, from: string, to: string)

  predicate IsTracked(field: string) { field == "summary" || field == "description" }

  /** A missing value reads as the empty string. */
  function OrEmpty(v: Option<string>): string {
    match v
    case Some(s) => s
    case None => ""
  }

  /** The change one item of an entry made at `when` becomes. */
  function ChangeOf(when: int, item: Item): (c: Change)
    ensures c.when == when && c.field == item.field
    ensures c.from == OrEmpty(item.fromString) && c.to == OrEmpty(item.toValue)
    ensures item.fromString == None ==> c.from == ""
    ensures item.toValue == None ==> c.to == ""
  {
    Change(when, item.field, OrEmpty(item.fromString), OrEmpty(item.toValue))
  }

  /** The tracked items of one entry, in item order. */
  function ItemChanges(when: int, items: seq<Item>): (r: seq<Change>)
    ensures |r| <= |items|
    ensures forall k :: 0 <= k < |r| ==> r[k].when == when && IsTracked(r[k].field)
  {
    if items == [] then []
    else (if IsTracked(items[0].field) then [ChangeOf(when, items[0])] else []) + ItemChanges(when, items[1..])
  }

  /** The changes of an issue's history within the window, in history order
      and then item order. */
  function Extract(histories: seq<History>, cutoff: int): (r: seq<Change>)
    ensures forall k :: 0 <= k < |r| ==> r[k].when >= cutoff && IsTracked(r[k].field)
  {
    if histories == [] then []
    else
      var h := histories[0];
      (if h.created >= cutoff then ItemChanges(h.created, h.items) else []) + Extract(histories[1..], cutoff)
  }

  /** The changes `Main` reports for one issue. */
  function IssueChanges(issue: Issue, cutoff: int): (r: seq<Change>)
    ensures forall k :: 0 <= k < |r| ==> r[k].when >= cutoff && IsTracked(r[k].field)
  {
    Extract(issue.changelog.histories, cutoff)
  }

  lemma {:induction false} ItemChangesSound(when: int, items: seq<Item>, c: Change)
    requires c in ItemChanges(when, items)
    ensures exists item :: item in items && IsTracked(item.field) && c == ChangeOf(when, item)
  {
    if IsTracked(items[0].field) && c == ChangeOf(when, items[0]) {
    } else {
      ItemChangesSound(when, items[1..], c);
    }
  }

  /** Only the summary and the description, only entries inside the window,
      and every change comes from one item of one entry with missing values
      read as empty. */
  lemma {:induction false} ExtractSound(histories: seq<History>, cutoff: int, c: Change)
    requires c in Extract(histories, cutoff)
    ensures IsTracked(c.field) && c.when >= cutoff
    ensures exists h, item :: (h in histories && item in h.items && h.created >= cutoff &&
                               IsTracked(item.field) && c == ChangeOf(h.created, item))
  {
    var h := histories[0];
    if h.created >= cutoff && c in ItemChanges(h.created, h.items) {
      ItemChangesSound(h.created, h.items, c);
    } else {
      ExtractSound(histories[1..], cutoff, c);
    }
  }

  lemma {:induction false} ItemChangesComplete(when: int, items: seq<Item>, item: Item)
    requires item in items && IsTracked(item.field)
    ensures ChangeOf(when, item) in ItemChanges(when, items)
  {
    if items[0] != item {
      ItemChangesComplete(when, items[1..], item);
    }
  }

  /** Every tracked item of every entry inside the window is extracted. */
  lemma {:induction false} ExtractComplete(histories: seq<History>, cutoff: int, h: History, item: Item)
    requires h in histories && h.created >= cutoff
    requires item in h.items && IsTracked(item.field)
    ensures ChangeOf(h.created, item) in Extract(histories, cutoff)
  {
    if histories[0] == h {
      ItemChangesComplete(h.created, h.items, item);
    } else {
      ExtractComplete(histories[1..], cutoff, h, item);
    }
  }

  lemma {:induction false} ItemChangesAppend(when: int, a: seq<Item>, b: seq<Item>)
    ensures ItemChanges(when, a + b) == ItemChanges(when, a) + ItemChanges(when, b)
  {
    if a == [] {
      assert a + b == b;
    } else {
      assert (a + b)[0] == a[0] && (a + b)[1..] == a[1..] + b;
      ItemChangesAppend(when, a[1..], b);
      var head := if IsTracked(a[0].field) then [ChangeOf(when, a[0])] else [];
      calc {
        ItemChanges(when, a + b);
        head + ItemChanges(when, a[1..] + b);
        head + (ItemChanges(when, a[1..]) + ItemChanges(when, b));
        { Assoc(head, ItemChanges(when, a[1..]), ItemChanges(when, b)); }
        (head + ItemChanges(when, a[1..])) + ItemChanges(when, b);
      }
    }
  }

  /** Extraction keeps the order of the history: the changes of earlier
      entries come first. */
  lemma {:induction false} ExtractAppend(a: seq<History>, b: seq<History>, cutoff: int)
    ensures Extract(a + b, cutoff) == Extract(a, cutoff) + Extract(b, cutoff)
  {
    if a == [] {
      assert a + b == b;
    } else {
      assert (a + b)[0] == a[0] && (a + b)[1..] == a[1..] + b;
      ExtractAppend(a[1..], b, cutoff);
      var h := a[0];
      var head := if h.created >= cutoff then ItemChanges(h.created, h.items) else [];
      Assoc(head, Extract(a[1..], cutoff), Extract(b, cutoff));
    }
  }

  /** Within one entry: nothing before the cutoff, otherwise one change per
      tracked item in item order. */
  lemma ExtractOne(h: History, cutoff: int)
    ensures Extract([h], cutoff) == if h.created >= cutoff then ItemChanges(h.created, h.items) else []
  {
    assert [h][1..] == [];
  }

  lemma ItemChangesOne(when: int, item: Item)
    ensures ItemChanges(when, [item]) == if IsTracked(item.field) then [ChangeOf(when, item)] else []
  {
    assert [item][1..] == [];
  }

  /** Repeated edits of one field stay separate changes: two edits of the
      summary inside the window give two changes, not one net change. */
  lemma RepeatedEditsNotMerged(t1: int, t2: int, cutoff: int, a: string, b: string, c: string)
    requires cutoff <= t1 < t2
    ensures Extract([History(t1, [Item("summary", Some(a), Some(b))]),
                     History(t2, [Item("summary", Some(b), Some(c))])], cutoff)
         == [Change(t1, "summary", a, b), Change(t2, "summary", b, c)]
  {
    var h1 := History(t1, [Item("summary", Some(a), Some(b))]);
    var h2 := History(t2, [Item("summary", Some(b), Some(c))]);
    ExtractAppend([h1], [h2], cutoff);
    assert [h1] + [h2] == [h1, h2];
    ExtractOne(h1, cutoff);
    ExtractOne(h2, cutoff);
    ItemChangesOne(t1, h1.items[0]);
    ItemChangesOne(t2, h2.items[0]);
  }
}
