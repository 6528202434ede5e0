/**
  The saved-analysis history: a list of analyses, newest first and at most 50 long,
  kept in one storage slot. The slot is modelled as a field of the store; what the
  host storage and JSON would do is reduced to the slot being missing, holding a
  list, or holding something that does not parse.
 */
module History {
  import opened Valuation

  /** `SavedAnalysis`: the caller fills in every field; the store never changes one. */
  datatype SavedAnalysis = SavedAnalysis(
    id: string,
    ticker: string,
    company: string,
    date: string,
    methodName: string,
    result: ValuationResult,
    currentPrice: real)

  /** The most analyses the slot keeps. */
  const MaxAnalyses: nat := 50

  /** The storage slot: never written, holding a parsed list, or holding text that does not parse. */
  datatype Slot = Missing | Stored(entries: seq<SavedAnalysis>) | Corrupt

  /** `slice(0, 50)`: the first 50 entries, or all of them when there are fewer. */
  function Truncate(s: seq<SavedAnalysis>): (r: seq<SavedAnalysis>)
    ensures |r| == if |s| < MaxAnalyses then |s| else MaxAnalyses
    ensures r == s[..|r|]
  {
    if |s| < MaxAnalyses then s else s[..MaxAnalyses]
  }

  /**
    The list `saveAnalysis` writes: the new analysis first, then the old entries in
    their order, cut to 50.
   */
  function Prepend(history: seq<SavedAnalysis>, a: SavedAnalysis): (r: seq<SavedAnalysis>)
    ensures |r| == if |history| < MaxAnalyses then |history| + 1 else MaxAnalyses
    ensures r[0] == a
    ensures forall i :: 1 <= i < |r| ==> r[i] == history[i - 1]
  {
    Truncate([a] + history)
  }

  /** The number of entries with the given id. */
  function CountId(history: seq<SavedAnalysis>, id: string): nat
  {
    if history == [] then 0
    else (if history[0].id == id then 1 else 0) + CountId(history[1..], id)
  }

  /**
    `filter(a => a.id !== id)`: every entry with another id, in its order, and none
    with this one.
   */
  function RemoveId(history: seq<SavedAnalysis>, id: string): (r: seq<SavedAnalysis>)
    ensures |r| == |history| - CountId(history, id)
    ensures forall e :: multiset(r)[e] == if e.id == id then 0 else multiset(history)[e]
  {
    if history == [] then []
    else
      var rest := RemoveId(history[1..], id);
      assert history == [history[0]] + history[1..];
      if history[0].id == id then rest else [history[0]] + rest
  }

  /** Filtering a concatenation filters each part: the kept entries keep their order. */
  lemma {:induction false} RemoveIdConcat(h1: seq<SavedAnalysis>, h2: seq<SavedAnalysis>, id: string)
    ensures RemoveId(h1 + h2, id) == RemoveId(h1, id) + RemoveId(h2, id)
  {
    if h1 == [] {
      assert h1 + h2 == h2;
    } else {
      var h := h1 + h2;
      assert h[0] == h1[0] && h[1..] == h1[1..] + h2;
      RemoveIdConcat(h1[1..], h2, id);
      if h1[0].id == id {
        assert RemoveId(h, id) == RemoveId(h[1..], id);
      } else {
        assert RemoveId(h, id) == [h1[0]] + RemoveId(h[1..], id);
        assert RemoveId(h1, id) == [h1[0]] + RemoveId(h1[1..], id);
      }
    }
  }

  /** Deleting an id that no entry has leaves the history as it was. */
  lemma {:induction false} RemoveAbsentId(history: seq<SavedAnalysis>, id: string)
    requires forall i :: 0 <= i < |history| ==> history[i].id != id
    ensures RemoveId(history, id) == history
  {
    if history != [] {
      RemoveAbsentId(history[1..], id);
    }
  }

  /** Deleting twice is deleting once. */
  lemma {:induction false} RemoveIdIdempotent(history: seq<SavedAnalysis>, id: string)
    ensures RemoveId(RemoveId(history, id), id) == RemoveId(history, id)
  {
    var r := RemoveId(history, id);
    forall i | 0 <= i < |r| ensures r[i].id != id {
      assert r[i] in multiset(r);
    }
    RemoveAbsentId(r, id);
  }

  /**
    Saving an analysis whose id is new into a history with room for it, then deleting
    that id, gives the history back.
   */
  lemma DeleteUndoesSave(history: seq<SavedAnalysis>, a: SavedAnalysis)
    requires |history| < MaxAnalyses
    requires forall i :: 0 <= i < |history| ==> history[i].id != a.id
    ensures RemoveId(Prepend(history, a), a.id) == history
  {
    assert Prepend(history, a) == [a] + history;
    RemoveIdConcat([a], history, a.id);
    RemoveAbsentId(history, a.id);
  }

  /** Saving each analysis of `batch` in turn, first to last. */
  function SaveAll(history: seq<SavedAnalysis>, batch: seq<SavedAnalysis>): seq<SavedAnalysis>
    decreases |batch|
  {
    if batch == [] then history else SaveAll(Prepend(history, batch[0]), batch[1..])
  }

  function Reversed(s: seq<SavedAnalysis>): (r: seq<SavedAnalysis>)
    ensures |r| == |s|
    ensures forall i :: 0 <= i < |s| ==> r[i] == s[|s| - 1 - i]
  {
    if s == [] then [] else Reversed(s[1..]) + [s[0]]
  }

  /** Truncating an inner suffix first changes nothing once the whole is truncated. */
  lemma TruncateAbsorbs(front: seq<SavedAnalysis>, back: seq<SavedAnalysis>)
    ensures Truncate(front + Truncate(back)) == Truncate(front + back)
  {
    var a, b := Truncate(front + Truncate(back)), Truncate(front + back);
    assert |a| == |b|;
    forall i | 0 <= i < |a| ensures a[i] == b[i] {
      if i >= |front| {
        assert a[i] == Truncate(back)[i - |front|];
      }
    }
  }

  /**
    Saving a batch into a history of at most 50 keeps the 50 newest analyses, newest
    first: the batch reversed, then the older history, cut to 50.
   */
  lemma {:induction false} SaveAllKeepsNewest(history: seq<SavedAnalysis>, batch: seq<SavedAnalysis>)
    requires |history| <= MaxAnalyses
    ensures SaveAll(history, batch) == Truncate(Reversed(batch) + history)
    decreases |batch|
  {
    if batch == [] {
      assert Reversed(batch) + history == history;
    } else {
      var x, rest := batch[0], batch[1..];
      assert SaveAll(history, batch) == SaveAll(Prepend(history, x), rest);
      SaveAllKeepsNewest(Prepend(history, x), rest);
      assert Prepend(history, x) == Truncate([x] + history);
      TruncateAbsorbs(Reversed(rest), [x] + history);
      assert Reversed(batch) == Reversed(rest) + [x];
      assert Reversed(rest) + ([x] + history) == Reversed(batch) + history;
    }
  }

  /** After 55 analyses are saved into an empty history, exactly the last 50 remain, newest first. */
  lemma FiftyFiveSaves(batch: seq<SavedAnalysis>)
    requires |batch| == 55
    ensures |SaveAll([], batch)| == 50
    ensures forall i :: 0 <= i < 50 ==> SaveAll([], batch)[i] == batch[54 - i]
  {
    SaveAllKeepsNewest([], batch);
    assert Reversed(batch) + [] == Reversed(batch);
  }

  /** The history store; `slot` stands for the `valuation-analyses` storage entry. */
  class AnalysisStore {
    var slot: Slot

    constructor ()
      ensures slot == Missing
    {
      slot := Missing;
    }

    /** `getAnalyses`: the stored list, or no entries when the slot is missing or does not parse. */
    function GetAnalyses(): (r: seq<SavedAnalysis>)
      reads this
      ensures slot.Stored? ==> r == slot.entries
      ensures !slot.Stored? ==> r == []
    {
      match slot
      case Stored(entries) => entries
      case _ => []
    }

    /** `saveAnalysis`: read, put the new analysis in front, keep the first 50, write back. */
    method SaveAnalysis(analysis: SavedAnalysis)
      modifies this
      ensures slot == Stored(Prepend(old(GetAnalyses()), analysis))
      ensures GetAnalyses()[0] == analysis && |GetAnalyses()| <= MaxAnalyses
    {
      var saved := GetAnalyses();
      saved := [analysis] + saved;
      slot := Stored(saved[..if |saved| < MaxAnalyses then |saved| else MaxAnalyses]);
    }

    /** `deleteAnalysis`: read, drop every entry with this id, write back. */
    method DeleteAnalysis(id: string)
      modifies this
      ensures slot == Stored(RemoveId(old(GetAnalyses()), id))
      ensures |GetAnalyses()| == |old(GetAnalyses())| - CountId(old(GetAnalyses()), id)
    {
      var saved := RemoveId(GetAnalyses(), id);
      slot := Stored(saved);
    }
  }
}
