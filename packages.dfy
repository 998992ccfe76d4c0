// `Packages` in app/page.tsx: a year switch over two package lists, and an
// accordion in which selecting a card opens it or closes it again.
module Packages {
  import opened Common

  /** The two years of the switch. */
  datatype Year = Y2025 | Y2026

  /** The card keys of `PACKAGES_2025` and `PACKAGES_2026`, in display order. */
  function Keys(y: Year): seq<string> {
    match y
    case Y2025 => ["premium", "basic", "simple"]
    case Y2026 => ["premium", "basic", "simple"]
  }

  /**
   * A card's `onSelect`: `openedKey === pkg.key ? null : pkg.key`. The
   * selected card ends up open exactly when it was closed, and no other
   * key stays open.
   */
  function Selected(current: Option<string>, key: string): (r: Option<string>)
    ensures (r == Some(key)) <==> (current != Some(key))
    ensures forall k :: r == Some(k) ==> k == key
  {
    if current == Some(key) then None else Some(key)
  }

  /** Selecting the same card twice from a closed state leaves it closed again. */
  lemma SelectTwice(current: Option<string>, key: string)
    requires current != Some(key)
    ensures Selected(Selected(current, key), key) == None
  {
  }

  /** How many of the rendered cards are open (`open={openedKey === pkg.key}`). */
  function OpenCount(keys: seq<string>, current: Option<string>): (c: nat)
    ensures c <= |keys|
    ensures current == None ==> c == 0
  {
    if keys == [] then 0
    else (if current == Some(keys[0]) then 1 else 0) + OpenCount(keys[1..], current)
  }

  predicate Distinct(keys: seq<string>) {
    forall i, j :: 0 <= i < j < |keys| ==> keys[i] != keys[j]
  }

  /** With distinct card keys, at most one card is open; none when `openedKey` is null. */
  lemma {:induction false} AtMostOneOpen(keys: seq<string>, current: Option<string>)
    requires Distinct(keys)
    ensures OpenCount(keys, current) <= 1
    ensures current == None ==> OpenCount(keys, current) == 0
    ensures current.Some? && current.value in keys ==> OpenCount(keys, current) == 1
    decreases |keys|
  {
    if keys != [] {
      AtMostOneOpen(keys[1..], current);
      if current == Some(keys[0]) {
        NotOpenElsewhere(keys[1..], current);
      } else if current.Some? && current.value in keys {
        assert current.value in keys[1..];
      }
    }
  }

  lemma {:induction false} NotOpenElsewhere(keys: seq<string>, current: Option<string>)
    requires current.Some? && current.value !in keys
    ensures OpenCount(keys, current) == 0
    decreases |keys|
  {
    if keys != [] {
      NotOpenElsewhere(keys[1..], current);
    }
  }

  /** Both years list three distinct cards. */
  lemma KeysDistinct(y: Year)
    ensures Distinct(Keys(y)) && |Keys(y)| == 3
  {
  }

  /** The accordion's state: which card is expanded, and which year is shown. */
  class Accordion {
    var openedKey: Option<string>
    var year: Year

    /** Mount: 2025, nothing expanded. */
    constructor ()
      ensures openedKey == None && year == Y2025
    {
      openedKey := None;
      year := Y2025;
    }

    /** The cards of the selected year (`data`). */
    function Cards(): seq<string>
      reads this
    {
      Keys(year)
    }

    /** A card's "details" button. */
    method Select(key: string)
      modifies this
      ensures openedKey == Selected(old(openedKey), key) && year == old(year)
      ensures OpenCount(Cards(), openedKey) <= 1
    {
      openedKey := Selected(openedKey, key);
      KeysDistinct(year);
      AtMostOneOpen(Cards(), openedKey);
    }

    /** A year button: show that year and collapse every card. */
    method SwitchYear(y: Year)
      modifies this
      ensures year == y && openedKey == None
      ensures OpenCount(Cards(), openedKey) == 0
    {
      year := y;
      openedKey := None;
      KeysDistinct(year);
      AtMostOneOpen(Cards(), openedKey);
    }
  }
}
