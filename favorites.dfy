/**
 * The favourites list as a value: an ordered sequence of (label, hex) records
 * in which duplicates are allowed, and the first-match search that deleting
 * and relabelling both use.
 */
module Favorites {

  /** One saved colour: the `{"label": ..., "hex": ...}` record (`label` is a Dafny keyword, hence `name`). */
  datatype Favorite = Favorite(name: string, hex: string)

  /** Index of the first record equal to `sel` (same label and same hex), or `|favs|` if none is. */
  function FirstMatch(favs: seq<Favorite>, sel: Favorite): (i: nat)
    ensures i <= |favs|
    ensures forall k :: 0 <= k < i ==> favs[k] != sel
    ensures i < |favs| ==> favs[i] == sel
  {
    if favs == [] then 0
    else if favs[0] == sel then 0
    else 1 + FirstMatch(favs[1..], sel)
  }

  /** The list after deleting the first record equal to `sel`; unchanged if there is none. */
  function RemoveFirst(favs: seq<Favorite>, sel: Favorite): seq<Favorite> {
    var i := FirstMatch(favs, sel);
    if i < |favs| then favs[..i] + favs[i + 1..] else favs
  }

  /** The list after giving the first record equal to `sel` the label `newLabel`. */
  function RelabelFirst(favs: seq<Favorite>, sel: Favorite, newLabel: string): seq<Favorite> {
    var i := FirstMatch(favs, sel);
    if i < |favs| then favs[i := Favorite(newLabel, favs[i].hex)] else favs
  }

  /** The search finds the record exactly when it is present. */
  lemma FirstMatchFound(favs: seq<Favorite>, sel: Favorite)
    ensures FirstMatch(favs, sel) < |favs| <==> sel in favs
  {
  }

  /** In a list `pre + [sel] + post` with no `sel` in `pre`, the first match is right after `pre`. */
  lemma FirstMatchAfter(pre: seq<Favorite>, sel: Favorite, post: seq<Favorite>)
    requires sel !in pre
    ensures FirstMatch(pre + [sel] + post, sel) == |pre|
  {
    var favs := pre + [sel] + post;
    assert favs[|pre|] == sel;
    assert forall k :: 0 <= k < |pre| ==> favs[k] == pre[k];
  }

  /** Deleting takes out the first copy of `sel` and keeps every later one, in order. */
  lemma RemoveFirstSplit(pre: seq<Favorite>, sel: Favorite, post: seq<Favorite>)
    requires sel !in pre
    ensures RemoveFirst(pre + [sel] + post, sel) == pre + post
  {
    var favs := pre + [sel] + post;
    FirstMatchAfter(pre, sel, post);
    assert favs[..|pre|] == pre;
    assert favs[|pre| + 1..] == post;
  }

  /** Deleting an absent record changes nothing. */
  lemma RemoveFirstAbsent(favs: seq<Favorite>, sel: Favorite)
    requires sel !in favs
    ensures RemoveFirst(favs, sel) == favs
  {
  }

  /** The length drops by one exactly when a matching record exists. */
  lemma RemoveFirstLength(favs: seq<Favorite>, sel: Favorite)
    ensures |RemoveFirst(favs, sel)| == if sel in favs then |favs| - 1 else |favs|
  {
    FirstMatchFound(favs, sel);
  }

  /** Exactly one copy of `sel` goes away, if there was one, and every other record stays. */
  lemma RemoveFirstMultiset(favs: seq<Favorite>, sel: Favorite)
    ensures multiset(RemoveFirst(favs, sel)) == multiset(favs) - multiset{sel}
  {
    var i := FirstMatch(favs, sel);
    if i < |favs| {
      assert favs == favs[..i] + [favs[i]] + favs[i + 1..];
      assert multiset(favs) == multiset(favs[..i]) + multiset{sel} + multiset(favs[i + 1..]);
    } else {
      FirstMatchFound(favs, sel);
      assert multiset(favs)[sel] == 0;
    }
  }

  /** Relabelling changes the label of the first copy of `sel` only, and keeps later copies. */
  lemma RelabelFirstSplit(pre: seq<Favorite>, sel: Favorite, post: seq<Favorite>, newLabel: string)
    requires sel !in pre
    ensures RelabelFirst(pre + [sel] + post, sel, newLabel) == pre + [Favorite(newLabel, sel.hex)] + post
  {
    var favs := pre + [sel] + post;
    FirstMatchAfter(pre, sel, post);
    var r := RelabelFirst(favs, sel, newLabel);
    assert |r| == |pre + [Favorite(newLabel, sel.hex)] + post|;
    forall k | 0 <= k < |r|
      ensures r[k] == (pre + [Favorite(newLabel, sel.hex)] + post)[k]
    {
    }
  }

  /** Relabelling keeps the length and every hex, and changes at most the one label. */
  lemma RelabelFirstKeeps(favs: seq<Favorite>, sel: Favorite, newLabel: string)
    ensures |RelabelFirst(favs, sel, newLabel)| == |favs|
    ensures forall k :: 0 <= k < |favs| ==> RelabelFirst(favs, sel, newLabel)[k].hex == favs[k].hex
    ensures forall k :: 0 <= k < |favs| && k != FirstMatch(favs, sel) ==>
      RelabelFirst(favs, sel, newLabel)[k] == favs[k]
    ensures sel !in favs ==> RelabelFirst(favs, sel, newLabel) == favs
  {
    FirstMatchFound(favs, sel);
  }

  /**
   * Adding a colour and then deleting the same record gives back the old list
   * only when no earlier duplicate existed; otherwise the earlier copy is the
   * one deleted and the new record stays at the end.
   */
  lemma AddThenDelete(favs: seq<Favorite>, f: Favorite)
    ensures f !in favs ==> RemoveFirst(favs + [f], f) == favs
    ensures f in favs ==> RemoveFirst(favs + [f], f) == RemoveFirst(favs, f) + [f]
  {
    if f !in favs {
      RemoveFirstSplit(favs, f, []);
      assert favs + [f] + [] == favs + [f];
    } else {
      var i := FirstMatch(favs, f);
      FirstMatchFound(favs, f);
      var pre, post := favs[..i], favs[i + 1..];
      assert favs == pre + [f] + post;
      assert favs + [f] == pre + [f] + (post + [f]);
      RemoveFirstSplit(pre, f, post + [f]);
      RemoveFirstSplit(pre, f, post);
      assert pre + (post + [f]) == (pre + post) + [f];
    }
  }

  /** Either way, adding and then deleting the same record leaves the same records behind. */
  lemma AddThenDeleteMultiset(favs: seq<Favorite>, f: Favorite)
    ensures multiset(RemoveFirst(favs + [f], f)) == multiset(favs)
  {
    calc {
      multiset(RemoveFirst(favs + [f], f));
      { RemoveFirstMultiset(favs + [f], f); }
      multiset(favs + [f]) - multiset{f};
      { assert multiset(favs + [f]) == multiset(favs) + multiset{f}; }
      multiset(favs);
    }
  }
}
