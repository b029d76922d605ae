/** A fixed-depth L2 order book: each side is an array of MAX_LEVELS price
    levels of which the first `depth` are live, bids strictly descending and
    asks strictly ascending by price.

    The first half states what an update does to the sequence of live levels
    of one side (`Updated`) and proves its properties; the second half is the
    book itself, whose methods shift levels in place in the two arrays and are
    proved to compute `Updated`. */
module OrderBooks {
  import opened Types
  import opened Wrappers
  import opened Messages

  // ---------------------------------------------------------------------
  // One side as a sequence of live levels.

  /** Price `a` ranks strictly ahead of `b` on `side`: a higher bid, a lower ask. */
  predicate Before(side: Side, a: Price, b: Price)
  {
    match side
    case Buy => a.raw > b.raw
    case Sell => a.raw < b.raw
  }

  /** Strictly monotonic in the side's direction (so no price repeats). */
  ghost predicate Ordered(side: Side, s: seq<PriceLevel>)
  {
    forall i, j :: 0 <= i < j < |s| ==> Before(side, s[i].price, s[j].price)
  }

  /** What the book's own sortedness check inspects: neighbours only. */
  ghost predicate AdjacentOrdered(side: Side, s: seq<PriceLevel>)
  {
    forall i :: 0 <= i < |s| - 1 ==> Before(side, s[i].price, s[i + 1].price)
  }

  /** The invariant of the live part of a side: at most MAX_LEVELS levels,
      strictly ordered, each one order with a non-zero quantity. */
  ghost predicate WellFormedSide(side: Side, s: seq<PriceLevel>)
  {
    && |s| <= MAX_LEVELS
    && Ordered(side, s)
    && forall i :: 0 <= i < |s| ==> s[i].orderCount == 1 && s[i].qty.raw != 0
  }

  function Prices(s: seq<PriceLevel>): set<Price>
  {
    set l | l in s :: l.price
  }

  function Elems(s: seq<PriceLevel>): set<PriceLevel>
  {
    set l | l in s
  }

  /** The levels of `s` at prices other than `price`. */
  function AtOtherPrices(s: seq<PriceLevel>, price: Price): set<PriceLevel>
  {
    set l | l in s && l.price != price
  }

  /** Where the linear scan stops: the first level that does not rank ahead
      of `price`. */
  function Position(side: Side, s: seq<PriceLevel>, price: Price): (pos: nat)
    ensures pos <= |s|
    ensures forall k :: 0 <= k < pos ==> Before(side, s[k].price, price)
    ensures pos < |s| ==> !Before(side, s[pos].price, price)
  {
    if s == [] || !Before(side, s[0].price, price) then 0
    else 1 + Position(side, s[1..], price)
  }

  /** The level at `pos` taken out, the later ones moved up. */
  function Removed(s: seq<PriceLevel>, pos: nat): seq<PriceLevel>
    requires pos < |s|
  {
    s[..pos] + s[pos + 1..]
  }

  /** `level` put at `pos`, the later ones moved down, and whatever falls
      beyond MAX_LEVELS dropped. */
  function Inserted(s: seq<PriceLevel>, pos: nat, level: PriceLevel): seq<PriceLevel>
    requires pos <= |s| <= MAX_LEVELS
  {
    var grown := s[..pos] + [level] + s[pos..];
    if |grown| > MAX_LEVELS then grown[..MAX_LEVELS] else grown
  }

  /** The live levels of a side after `update_level(side, price, qty)`:
      a zero quantity removes the level at `price`, another quantity
      overwrites it or inserts a new one at its rank. Either way the side
      stays within MAX_LEVELS, a removal never grows it and an overwrite or
      insertion never shrinks it. */
  function Updated(side: Side, s: seq<PriceLevel>, price: Price, qty: Quantity): (r: seq<PriceLevel>)
    requires |s| <= MAX_LEVELS
    ensures |r| <= MAX_LEVELS
    ensures if qty.raw == 0 then |r| <= |s| else |s| <= |r|
  {
    var pos := Position(side, s, price);
    var found := pos < |s| && s[pos].price == price;
    if qty.raw == 0 then
      if found then Removed(s, pos) else s
    else if found then
      s[pos := s[pos].(qty := qty)]
    else
      Inserted(s, pos, NewLevel(price, qty))
  }

  // ---------------------------------------------------------------------
  // Properties of one side.

  /** The scan stops on `price` exactly when a live level has that price. */
  lemma PositionFinds(side: Side, s: seq<PriceLevel>, price: Price)
    requires Ordered(side, s)
    ensures var pos := Position(side, s, price);
            (pos < |s| && s[pos].price == price) <==> price in Prices(s)
  {
    var pos := Position(side, s, price);
    if price in Prices(s) {
      var l :| l in s && l.price == price;
      var k :| 0 <= k < |s| && s[k] == l;
      assert k < pos ==> Before(side, s[k].price, price);
    }
  }

  /** Any stopping point with the scan's two properties is the scan's. */
  lemma PositionIsFirstStop(side: Side, s: seq<PriceLevel>, price: Price, pos: nat)
    requires pos <= |s|
    requires forall k :: 0 <= k < pos ==> Before(side, s[k].price, price)
    requires pos < |s| ==> !Before(side, s[pos].price, price)
    ensures pos == Position(side, s, price)
  {
  }

  /** Checking neighbours is enough for strict order. */
  lemma {:induction false} AdjacentOrderedIsOrdered(side: Side, s: seq<PriceLevel>)
    requires AdjacentOrdered(side, s)
    ensures Ordered(side, s)
  {
    if |s| > 1 {
      var t := s[1..];
      assert AdjacentOrdered(side, t) by {
        forall i | 0 <= i < |t| - 1 ensures Before(side, t[i].price, t[i + 1].price) {
          assert t[i] == s[i + 1] && t[i + 1] == s[i + 2];
        }
      }
      AdjacentOrderedIsOrdered(side, t);
      forall i, j | 0 <= i < j < |s| ensures Before(side, s[i].price, s[j].price) {
        if i > 0 {
          assert s[i] == t[i - 1] && s[j] == t[j - 1];
        } else if j > 1 {
          assert s[1] == t[0] && s[j] == t[j - 1];
          assert Before(side, s[1].price, s[j].price);
        }
      }
    }
  }

  /** Inserting a level that ranks after everything before `pos` and ahead of
      everything from `pos` on keeps the order. */
  lemma InsertKeepsOrder(side: Side, s: seq<PriceLevel>, pos: nat, level: PriceLevel)
    requires Ordered(side, s) && pos <= |s|
    requires forall k :: 0 <= k < pos ==> Before(side, s[k].price, level.price)
    requires forall k :: pos <= k < |s| ==> Before(side, level.price, s[k].price)
    ensures Ordered(side, s[..pos] + [level] + s[pos..])
  {
    var g := s[..pos] + [level] + s[pos..];
    assert forall i :: 0 <= i < |g| ==> g[i] == if i < pos then s[i] else if i == pos then level else s[i - 1];
  }

  /** Where a new level goes: after the levels that rank ahead of it, ahead of
      the ones from the scan position on. */
  lemma NewLevelFits(side: Side, s: seq<PriceLevel>, price: Price)
    requires Ordered(side, s) && price !in Prices(s)
    ensures var pos := Position(side, s, price);
            forall k :: pos <= k < |s| ==> Before(side, price, s[k].price)
  {
    var pos := Position(side, s, price);
    if pos < |s| {
      assert s[pos] in s;
      assert s[pos].price != price;
      forall k | pos <= k < |s| ensures Before(side, price, s[k].price) {
        if k > pos {
          assert Before(side, s[pos].price, s[k].price);
        }
      }
    }
  }

  /** Levels of an ordered side are pairwise distinct. */
  lemma OrderedDistinct(side: Side, s: seq<PriceLevel>, i: nat, j: nat)
    requires Ordered(side, s) && i < |s| && j < |s| && i != j
    ensures s[i] != s[j] && s[i].price != s[j].price
  {
    if i < j {
      assert Before(side, s[i].price, s[j].price);
    } else {
      assert Before(side, s[j].price, s[i].price);
    }
  }

  /** Taking a level out keeps a side well formed. */
  lemma RemovedWellFormed(side: Side, s: seq<PriceLevel>, pos: nat)
    requires WellFormedSide(side, s) && pos < |s|
    ensures WellFormedSide(side, Removed(s, pos))
  {
    var r := Removed(s, pos);
    assert forall i :: 0 <= i < |r| ==> r[i] == if i < pos then s[i] else s[i + 1];
  }

  /** A prefix of a well-formed side is well formed. */
  lemma PrefixWellFormed(side: Side, g: seq<PriceLevel>, n: nat)
    requires Ordered(side, g) && n <= |g| && n <= MAX_LEVELS
    requires forall i :: 0 <= i < |g| ==> g[i].orderCount == 1 && g[i].qty.raw != 0
    ensures WellFormedSide(side, g[..n])
  {
    assert forall i :: 0 <= i < n ==> g[..n][i] == g[i];
  }

  /** Inserting a new price at the scan position keeps a side well formed. */
  lemma InsertedWellFormed(side: Side, s: seq<PriceLevel>, price: Price, qty: Quantity)
    requires WellFormedSide(side, s) && qty.raw != 0 && price !in Prices(s)
    ensures var pos := Position(side, s, price);
            WellFormedSide(side, Inserted(s, pos, NewLevel(price, qty)))
  {
    var pos := Position(side, s, price);
    var L := NewLevel(price, qty);
    NewLevelFits(side, s, price);
    InsertKeepsOrder(side, s, pos, L);
    var g := s[..pos] + [L] + s[pos..];
    forall i | 0 <= i < |g| ensures g[i].orderCount == 1 && g[i].qty.raw != 0 {
      if i < pos {
        assert g[i] == s[i];
      } else if i > pos {
        assert g[i] == s[i - 1];
      }
    }
    var n := if |g| > MAX_LEVELS then MAX_LEVELS else |g|;
    PrefixWellFormed(side, g, n);
    assert g[..|g|] == g;
  }

  /** An update creates or alters no level at another price: every such
      level afterwards was already on the side. */
  lemma UpdateKeepsOtherLevels(side: Side, s: seq<PriceLevel>, price: Price, qty: Quantity)
    requires |s| <= MAX_LEVELS
    ensures forall l :: l in Updated(side, s, price, qty) && l.price != price ==> l in s
  {
  }

  /** Every update keeps a side well formed: strictly ordered, at most
      MAX_LEVELS deep, every level live. */
  lemma UpdateKeepsWellFormed(side: Side, s: seq<PriceLevel>, price: Price, qty: Quantity)
    requires WellFormedSide(side, s)
    ensures WellFormedSide(side, Updated(side, s, price, qty))
  {
    var pos := Position(side, s, price);
    PositionFinds(side, s, price);
    if pos < |s| && s[pos].price == price {
      if qty.raw == 0 {
        RemovedWellFormed(side, s, pos);
      } else {
        var r := s[pos := s[pos].(qty := qty)];
        assert forall i :: 0 <= i < |r| ==> r[i].price == s[i].price;
      }
    } else if qty.raw != 0 {
      InsertedWellFormed(side, s, price, qty);
    }
  }

  /** Quantity zero deletes the level at that price: the other levels stay,
      and the depth drops by one if the price was present, else nothing changes. */
  lemma ZeroQuantityRemoves(side: Side, s: seq<PriceLevel>, price: Price, qty: Quantity)
    requires WellFormedSide(side, s) && qty.raw == 0
    ensures var r := Updated(side, s, price, qty);
            && Elems(r) == AtOtherPrices(s, price)
            && price !in Prices(r)
            && (price in Prices(s) ==> |r| == |s| - 1)
            && (price !in Prices(s) ==> r == s)
  {
    var pos := Position(side, s, price);
    PositionFinds(side, s, price);
    if price in Prices(s) {
      assert Updated(side, s, price, qty) == Removed(s, pos);
      RemovedElems(side, s, pos);
    } else {
      assert forall l :: l in s ==> l.price != price;
    }
  }

  /** Taking out the level at `pos` leaves exactly the levels at the other
      prices, each price appearing once on a well-formed side. */
  lemma RemovedElems(side: Side, s: seq<PriceLevel>, pos: nat)
    requires WellFormedSide(side, s) && pos < |s|
    ensures var r := Removed(s, pos);
            && |r| == |s| - 1
            && Elems(r) == AtOtherPrices(s, s[pos].price)
            && s[pos].price !in Prices(r)
  {
    var r, price := Removed(s, pos), s[pos].price;
    forall i | 0 <= i < |s| && i != pos ensures s[i].price != price {
      OrderedDistinct(side, s, i, pos);
    }
    forall l | l in r ensures l in s && l.price != price {
      var i :| 0 <= i < |r| && r[i] == l;
      if i < pos {
        assert l == s[i];
      } else {
        assert l == s[i + 1];
      }
    }
    forall l | l in s && l.price != price ensures l in r {
      var i :| 0 <= i < |s| && s[i] == l;
      if i < pos {
        assert r[i] == l;
      } else {
        assert r[i - 1] == l;
      }
    }
    assert Elems(r) == AtOtherPrices(s, price);
  }

  /** A non-zero quantity at a present price overwrites that level's quantity
      and nothing else: same depth, same prices in the same slots. */
  lemma UpdateExistingOverwrites(side: Side, s: seq<PriceLevel>, price: Price, qty: Quantity)
    requires WellFormedSide(side, s) && qty.raw != 0 && price in Prices(s)
    ensures var r := Updated(side, s, price, qty);
            && |r| == |s|
            && (forall i :: 0 <= i < |s| ==> r[i].price == s[i].price && r[i].orderCount == s[i].orderCount)
            && (forall i :: 0 <= i < |s| ==> r[i].qty == if s[i].price == price then qty else s[i].qty)
  {
    var pos := Position(side, s, price);
    PositionFinds(side, s, price);
    forall i | 0 <= i < |s| && i != pos ensures s[i].price != price {
      OrderedDistinct(side, s, i, pos);
    }
  }

  /** A non-zero quantity at a new price on a side with room adds exactly the
      new level; nothing else changes. */
  lemma InsertAddsLevel(side: Side, s: seq<PriceLevel>, price: Price, qty: Quantity)
    requires WellFormedSide(side, s) && qty.raw != 0 && price !in Prices(s) && |s| < MAX_LEVELS
    ensures var r := Updated(side, s, price, qty);
            && |r| == |s| + 1
            && Elems(r) == Elems(s) + {NewLevel(price, qty)}
  {
    var pos := Position(side, s, price);
    PositionFinds(side, s, price);
    var level := NewLevel(price, qty);
    assert Updated(side, s, price, qty) == Inserted(s, pos, level);
    ElemsSplice(s, pos, level);
  }

  /** Splicing one level into a sequence adds exactly that level. */
  lemma ElemsSplice(s: seq<PriceLevel>, pos: nat, level: PriceLevel)
    requires pos <= |s|
    ensures var grown := s[..pos] + [level] + s[pos..];
            |grown| == |s| + 1 && Elems(grown) == Elems(s) + {level}
  {
    var grown := s[..pos] + [level] + s[pos..];
    assert s == s[..pos] + s[pos..];
    forall l ensures l in grown <==> l in s || l == level {
      assert l in grown <==> l in s[..pos] || l == level || l in s[pos..];
    }
  }

  /** Slot by slot, what an eviction leaves on a full side. */
  lemma EvictionSlots(side: Side, s: seq<PriceLevel>, price: Price, qty: Quantity)
    requires WellFormedSide(side, s) && qty.raw != 0 && price !in Prices(s)
    requires |s| == MAX_LEVELS && Before(side, price, s[MAX_LEVELS - 1].price)
    ensures var pos := Position(side, s, price);
            var r := Updated(side, s, price, qty);
            && pos < MAX_LEVELS && |r| == MAX_LEVELS
            && forall i :: 0 <= i < MAX_LEVELS ==>
                 r[i] == if i < pos then s[i] else if i == pos then NewLevel(price, qty) else s[i - 1]
  {
    var pos := Position(side, s, price);
    PositionFinds(side, s, price);
    var worst := s[MAX_LEVELS - 1];
    assert !Before(side, worst.price, price);
  }

  /** On a full side a new price that ranks ahead of the worst level evicts
      the worst level, and the better of the old best and the new level heads
      the side. */
  lemma FullSideEvictsWorst(side: Side, s: seq<PriceLevel>, price: Price, qty: Quantity)
    requires WellFormedSide(side, s) && qty.raw != 0 && price !in Prices(s)
    requires |s| == MAX_LEVELS && Before(side, price, s[MAX_LEVELS - 1].price)
    ensures var r := Updated(side, s, price, qty);
            && |r| == MAX_LEVELS
            && Elems(r) == Elems(s) - {s[MAX_LEVELS - 1]} + {NewLevel(price, qty)}
            && s[MAX_LEVELS - 1] !in r
            && r[0] == if Before(side, price, s[0].price) then NewLevel(price, qty) else s[0]
  {
    var pos := Position(side, s, price);
    var L := NewLevel(price, qty);
    var r := Updated(side, s, price, qty);
    var worst := s[MAX_LEVELS - 1];
    EvictionSlots(side, s, price, qty);
    forall i | 0 <= i < MAX_LEVELS - 1 ensures s[i] != worst {
      OrderedDistinct(side, s, i, MAX_LEVELS - 1);
    }
    assert L != worst by {
      assert worst in s;
    }
    forall l | l in r ensures (l in s && l != worst) || l == L {
      var k :| 0 <= k < |r| && r[k] == l;
      assert k < pos ==> l == s[k];
      assert k > pos ==> l == s[k - 1];
    }
    forall l | l in s && l != worst ensures l in r {
      var k :| 0 <= k < |s| && s[k] == l;
      assert k < MAX_LEVELS - 1;
      assert r[if k < pos then k else k + 1] == l;
    }
    assert L == r[pos];
    NewLevelFits(side, s, price);
    assert pos > 0 ==> Before(side, s[0].price, price);
  }

  /** On a full side a new price that does not rank ahead of the worst level
      leaves the side unchanged. */
  lemma FullSideIgnoresWorse(side: Side, s: seq<PriceLevel>, price: Price, qty: Quantity)
    requires WellFormedSide(side, s) && qty.raw != 0 && price !in Prices(s)
    requires |s| == MAX_LEVELS && !Before(side, price, s[MAX_LEVELS - 1].price)
    ensures Updated(side, s, price, qty) == s
  {
    var pos := Position(side, s, price);
    PositionFinds(side, s, price);
    NewLevelFits(side, s, price);
    var worst := s[MAX_LEVELS - 1];
    assert pos <= MAX_LEVELS - 1 ==> Before(side, price, worst.price);
    assert s + [NewLevel(price, qty)] == (s[..pos] + [NewLevel(price, qty)] + s[pos..]);
  }

  /** After a non-zero update every level at that price is the new level. */
  lemma LevelAtPriceIsNew(side: Side, s: seq<PriceLevel>, price: Price, qty: Quantity)
    requires WellFormedSide(side, s) && qty.raw != 0
    ensures var r := Updated(side, s, price, qty);
            forall l :: l in r && l.price == price ==> l == NewLevel(price, qty)
  {
    var r := Updated(side, s, price, qty);
    if price in Prices(s) {
      UpdateExistingOverwrites(side, s, price, qty);
      forall l | l in r && l.price == price ensures l == NewLevel(price, qty) {
        var k :| 0 <= k < |r| && r[k] == l;
      }
    } else if |s| < MAX_LEVELS {
      InsertAddsLevel(side, s, price, qty);
      assert forall l :: l in r ==> l in Elems(r);
    } else if Before(side, price, s[MAX_LEVELS - 1].price) {
      FullSideEvictsWorst(side, s, price, qty);
      assert forall l :: l in r ==> l in Elems(r);
    } else {
      FullSideIgnoresWorse(side, s, price, qty);
    }
  }

  /** Applying the same update twice is the same as applying it once. */
  lemma UpdateIdempotent(side: Side, s: seq<PriceLevel>, price: Price, qty: Quantity)
    requires WellFormedSide(side, s)
    ensures var r := Updated(side, s, price, qty);
            |r| <= MAX_LEVELS && Updated(side, r, price, qty) == r
  {
    var r := Updated(side, s, price, qty);
    UpdateKeepsWellFormed(side, s, price, qty);
    PositionFinds(side, r, price);
    var pos := Position(side, r, price);
    if qty.raw == 0 {
      ZeroQuantityRemoves(side, s, price, qty);
    } else {
      LevelAtPriceIsNew(side, s, price, qty);
      if price in Prices(s) {
        UpdateExistingOverwrites(side, s, price, qty);
        var k :| 0 <= k < |s| && s[k].price == price;
        assert r[k] in r;
      } else if |s| < MAX_LEVELS {
        InsertAddsLevel(side, s, price, qty);
        assert NewLevel(price, qty) in Elems(r);
      } else if Before(side, price, s[MAX_LEVELS - 1].price) {
        FullSideEvictsWorst(side, s, price, qty);
        assert NewLevel(price, qty) in Elems(r);
      } else {
        FullSideIgnoresWorse(side, s, price, qty);
      }
      assert price in Prices(r) || r == s;
      assert pos < |r| && r[pos].price == price ==> r[pos] in r && r[pos] == NewLevel(price, qty);
    }
  }

  // ---------------------------------------------------------------------
  // One side stored in an array.

  /** An array of MAX_LEVELS slots of which the first `depth` hold the
      well-formed live levels and the rest hold `PriceLevel::empty()`. */
  ghost predicate SideValid(side: Side, a: seq<PriceLevel>, depth: nat)
  {
    && |a| == MAX_LEVELS
    && depth <= MAX_LEVELS
    && WellFormedSide(side, a[..depth])
    && forall k :: depth <= k < MAX_LEVELS ==> a[k] == EmptyLevel()
  }

  /** `find_bid_position` / `find_ask_position`: the linear scan. */
  method FindPosition(levels: array<PriceLevel>, depth: nat, side: Side, price: Price) returns (pos: nat)
    requires depth <= levels.Length
    ensures pos <= depth
    ensures forall k :: 0 <= k < pos ==> Before(side, levels[k].price, price)
    ensures pos < depth ==> !Before(side, levels[pos].price, price)
    ensures pos == Position(side, levels[..depth], price)
  {
    pos := 0;
    while pos < depth && Before(side, levels[pos].price, price)
      invariant pos <= depth
      invariant forall k :: 0 <= k < pos ==> Before(side, levels[k].price, price)
    {
      pos := pos + 1;
    }
    PositionIsFirstStop(side, levels[..depth], price, pos);
  }

  /** The levels before `pos` kept, `level` at `pos` and the old levels
      from `pos` on moved down one place (the last one falling off a full
      side) is `Inserted`. */
  lemma ShiftedIsInserted(s: seq<PriceLevel>, r: seq<PriceLevel>, pos: nat, level: PriceLevel)
    requires |s| <= MAX_LEVELS && pos <= |s| && pos < MAX_LEVELS
    requires |r| == if |s| == MAX_LEVELS then MAX_LEVELS else |s| + 1
    requires forall k :: 0 <= k < pos ==> r[k] == s[k]
    requires r[pos] == level
    requires forall k :: pos < k < |r| ==> r[k] == s[k - 1]
    ensures r == Inserted(s, pos, level)
  {
    var grown := s[..pos] + [level] + s[pos..];
    assert |grown| == |s| + 1;
    forall k | 0 <= k < |r| ensures r[k] == grown[k] {
      if k > pos {
        assert grown[k] == s[k - 1];
      }
    }
    if |grown| > MAX_LEVELS {
      assert r == grown[..MAX_LEVELS];
    } else {
      assert r == grown;
    }
  }

  /** `insert_bid` / `insert_ask`: on a full side either give up (the slot is
      past the end) or drop the last level; then shift the levels from `pos`
      down by one and write the new level at `pos`. */
  method InsertAt(levels: array<PriceLevel>, depth: nat, pos: nat, level: PriceLevel) returns (newDepth: nat)
    requires levels.Length == MAX_LEVELS && pos <= depth <= MAX_LEVELS
    modifies levels
    ensures newDepth <= MAX_LEVELS
    ensures levels[..newDepth] == Inserted(old(levels[..depth]), pos, level)
    ensures forall k :: newDepth <= k < MAX_LEVELS ==> levels[k] == old(levels[k])
  {
    var d := depth;
    if d >= MAX_LEVELS {
      if pos >= MAX_LEVELS {
        assert old(levels[..depth]) + [level] == (old(levels[..depth]) + [level])[..MAX_LEVELS] + [level];
        return d;
      }
      d := MAX_LEVELS - 1;
    }
    for i := d downto pos
      invariant forall k :: 0 <= k <= i ==> levels[k] == old(levels[k])
      invariant forall k :: i < k <= d ==> levels[k] == old(levels[k - 1])
      invariant forall k :: d < k < MAX_LEVELS ==> levels[k] == old(levels[k])
    {
      levels[i + 1] := levels[i];
    }
    levels[pos] := level;
    newDepth := d + 1;
    ShiftedIsInserted(old(levels[..depth]), levels[..newDepth], pos, level);
  }

  /** `remove_bid` / `remove_ask`: shift the levels after `pos` up by one,
      shrink the side and reset the freed slot to `PriceLevel::empty()`. */
  method RemoveAt(levels: array<PriceLevel>, depth: nat, pos: nat) returns (newDepth: nat)
    requires pos < depth <= levels.Length
    modifies levels
    ensures newDepth == depth - 1
    ensures levels[..newDepth] == Removed(old(levels[..depth]), pos)
    ensures levels[newDepth] == EmptyLevel()
    ensures forall k :: depth <= k < levels.Length ==> levels[k] == old(levels[k])
  {
    for i := pos to depth - 1
      invariant forall k :: 0 <= k < pos ==> levels[k] == old(levels[k])
      invariant forall k :: pos <= k < i ==> levels[k] == old(levels[k + 1])
      invariant forall k :: i <= k < levels.Length ==> levels[k] == old(levels[k])
    {
      levels[i] := levels[i + 1];
    }
    newDepth := depth - 1;
    levels[newDepth] := EmptyLevel();
    ghost var s := old(levels[..depth]);
    assert levels[..newDepth] == s[..pos] + s[pos + 1..];
  }

  /** `update_bid` / `update_ask` on one side's array. */
  method UpdateSide(levels: array<PriceLevel>, depth: nat, side: Side, price: Price, qty: Quantity)
    returns (newDepth: nat)
    requires SideValid(side, levels[..], depth)
    modifies levels
    ensures SideValid(side, levels[..], newDepth)
    ensures levels[..newDepth] == Updated(side, old(levels[..depth]), price, qty)
  {
    ghost var s := levels[..depth];
    UpdateKeepsWellFormed(side, s, price, qty);
    var pos := FindPosition(levels, depth, side, price);
    newDepth := depth;
    if qty.raw == 0 {
      if pos < depth && levels[pos].price == price {
        newDepth := RemoveAt(levels, depth, pos);
      }
    } else {
      if pos < depth && levels[pos].price == price {
        levels[pos] := levels[pos].(qty := qty);
        assert levels[..depth] == s[pos := s[pos].(qty := qty)];
      } else {
        newDepth := InsertAt(levels, depth, pos, NewLevel(price, qty));
      }
    }
  }

  // ---------------------------------------------------------------------
  // The book.

  class OrderBook {
    const bids: array<PriceLevel>
    const asks: array<PriceLevel>
    var bidDepth: nat
    var askDepth: nat

    ghost predicate Valid()
      reads this, bids, asks
    {
      && bids != asks
      && SideValid(Buy, bids[..], bidDepth)
      && SideValid(Sell, asks[..], askDepth)
    }

    /** `OrderBook::new`: both sides empty, every slot `PriceLevel::empty()`. */
    constructor ()
      ensures Valid() && fresh(bids) && fresh(asks)
      ensures bidDepth == 0 && askDepth == 0
    {
      bids := new PriceLevel[MAX_LEVELS](_ => EmptyLevel());
      asks := new PriceLevel[MAX_LEVELS](_ => EmptyLevel());
      bidDepth, askDepth := 0, 0;
    }

    /** `bids()`: the live bid levels, strictly descending by price. */
    function Bids(): (r: seq<PriceLevel>)
      reads this, bids, asks
      requires Valid()
      ensures |r| == bidDepth <= MAX_LEVELS
      ensures forall i, j :: 0 <= i < j < |r| ==> r[i].price.raw > r[j].price.raw
    {
      bids[..bidDepth]
    }

    /** `asks()`: the live ask levels, strictly ascending by price. */
    function Asks(): (r: seq<PriceLevel>)
      reads this, bids, asks
      requires Valid()
      ensures |r| == askDepth <= MAX_LEVELS
      ensures forall i, j :: 0 <= i < j < |r| ==> r[i].price.raw < r[j].price.raw
    {
      asks[..askDepth]
    }

    /** `best_bid()`: none on an empty side, else the highest bid price. */
    function BestBid(): (r: Option<Price>)
      reads this, bids, asks
      requires Valid()
      ensures r.None? <==> bidDepth == 0
      ensures r.Some? ==> r.value == bids[0].price
      ensures r.Some? ==> forall i :: 0 < i < bidDepth ==> bids[i].price.raw < r.value.raw
    {
      if bidDepth > 0 then Some(bids[0].price) else None
    }

    /** `best_ask()`: none on an empty side, else the lowest ask price. */
    function BestAsk(): (r: Option<Price>)
      reads this, bids, asks
      requires Valid()
      ensures r.None? <==> askDepth == 0
      ensures r.Some? ==> r.value == asks[0].price
      ensures r.Some? ==> forall i :: 0 < i < askDepth ==> asks[i].price.raw > r.value.raw
    {
      if askDepth > 0 then Some(asks[0].price) else None
    }

    /** Both sides are non-empty and `ask - bid` fits in an i64. */
    ghost predicate SpreadFits()
      reads this, bids, asks
      requires Valid()
    {
      bidDepth > 0 && askDepth > 0 ==> InI64(asks[0].price.raw - bids[0].price.raw)
    }

    /** `spread()`: best ask minus best bid, when both exist. */
    function Spread(): (r: Option<Price>)
      reads this, bids, asks
      requires Valid() && SpreadFits()
      ensures r.Some? <==> BestBid().Some? && BestAsk().Some?
      ensures r.Some? ==> BestBid().value.raw + r.value.raw == BestAsk().value.raw
    {
      match (BestAsk(), BestBid())
      case (Some(ask), Some(bid)) => Some(ask.Sub(bid))
      case _ => None
    }

    /** `(ask.raw() + bid.raw())` fits in an i64. */
    ghost predicate MidFits()
      reads this, bids, asks
      requires Valid()
    {
      bidDepth > 0 && askDepth > 0 ==> InI64(asks[0].price.raw + bids[0].price.raw)
    }

    /** `mid_price()`: the sum of best ask and best bid halved with truncation
        toward zero; it lies between the two. */
    function MidPrice(): (r: Option<Price>)
      reads this, bids, asks
      requires Valid() && MidFits()
      ensures r.Some? <==> BestBid().Some? && BestAsk().Some?
      ensures r.Some? ==>
                var a, b := BestAsk().value.raw, BestBid().value.raw;
                && (a + b >= 0 ==> 0 <= a + b - 2 * r.value.raw <= 1)
                && (a + b < 0 ==> -1 <= a + b - 2 * r.value.raw <= 0)
                && (a <= r.value.raw <= b || b <= r.value.raw <= a)
    {
      match (BestAsk(), BestBid())
      case (Some(ask), Some(bid)) => Some(Price(TruncDiv(ask.raw + bid.raw, 2)))
      case _ => None
    }

    /** `update_bid`. */
    method UpdateBid(price: Price, qty: Quantity)
      requires Valid()
      modifies this`bidDepth, bids
      ensures Valid()
      ensures Bids() == Updated(Buy, old(Bids()), price, qty)
    {
      bidDepth := UpdateSide(bids, bidDepth, Buy, price, qty);
    }

    /** `update_ask`. */
    method UpdateAsk(price: Price, qty: Quantity)
      requires Valid()
      modifies this`askDepth, asks
      ensures Valid()
      ensures Asks() == Updated(Sell, old(Asks()), price, qty)
    {
      askDepth := UpdateSide(asks, askDepth, Sell, price, qty);
    }

    /** `update_level`: the side named by `side` is updated, the other side
        (its depth and every slot of its array) is untouched. */
    method UpdateLevel(side: Side, price: Price, qty: Quantity)
      requires Valid()
      modifies this, bids, asks
      ensures Valid()
      ensures side == Buy ==> Bids() == Updated(Buy, old(Bids()), price, qty)
      ensures side == Sell ==> Asks() == Updated(Sell, old(Asks()), price, qty)
      ensures side == Buy ==> askDepth == old(askDepth) && asks[..] == old(asks[..])
      ensures side == Sell ==> bidDepth == old(bidDepth) && bids[..] == old(bids[..])
    {
      match side
      case Buy => UpdateBid(price, qty);
      case Sell => UpdateAsk(price, qty);
    }

    /** `is_sorted`: compares neighbouring live levels on each side. */
    method IsSorted() returns (sorted: bool)
      requires bids.Length == MAX_LEVELS && asks.Length == MAX_LEVELS
      requires bidDepth <= MAX_LEVELS && askDepth <= MAX_LEVELS
      ensures sorted <==> Ordered(Buy, bids[..bidDepth]) && Ordered(Sell, asks[..askDepth])
    {
      ghost var b, a := bids[..bidDepth], asks[..askDepth];
      var lastBid := if bidDepth > 0 then bidDepth - 1 else 0;
      for i := 0 to lastBid
        invariant forall k :: 0 <= k < i ==> Before(Buy, b[k].price, b[k + 1].price)
      {
        if bids[i].price.raw <= bids[i + 1].price.raw {
          assert !Before(Buy, b[i].price, b[i + 1].price);
          return false;
        }
      }
      AdjacentOrderedIsOrdered(Buy, b);
      var lastAsk := if askDepth > 0 then askDepth - 1 else 0;
      for i := 0 to lastAsk
        invariant forall k :: 0 <= k < i ==> Before(Sell, a[k].price, a[k + 1].price)
      {
        if asks[i].price.raw >= asks[i + 1].price.raw {
          assert !Before(Sell, a[i].price, a[i + 1].price);
          return false;
        }
      }
      AdjacentOrderedIsOrdered(Sell, a);
      return true;
    }
  }
}
