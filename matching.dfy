/** The specification of an order book as values: each side maps a price to
    its FIFO queue of resting orders. Posting appends to a queue; matching
    walks the opposite side's levels best price first, draining each level
    in arrival order, and reports what was filled. */
module Matching {
  import opened Prices
  import opened Orders

  /** One side of a book: price level to resting orders, oldest first. */
  type Side = map<Price, seq<Order>>

  /** The report of one matching call. */
  datatype FillResult = FillResult(
    filledSize: Size,
    remainingSize: Size,
    avgFillPrice: real,
    filledOrders: seq<FilledOrder>)

  /** The outcome of walking a list of levels: the side afterwards, the
      size filled, what the incoming order still wants, the value
      (price times size) filled, and one report line per level that gave a
      positive amount. */
  datatype Walked = Walked(
    side: Side,
    filled: Size,
    remaining: Size,
    value: real,
    fills: seq<FilledOrder>)

  ghost predicate Distinct(ps: seq<Price>) {
    forall i, j :: 0 <= i < j < |ps| ==> ps[i] != ps[j]
  }

  ghost predicate Covers(ps: seq<Price>, side: Side) {
    forall p :: p in ps ==> p in side
  }

  /** Walks the levels `ps` in order; at each level drains the queue, adds a
      report line when the level gave something, and stops right after the
      level at which the incoming order is filled. */
  function Walk(ps: seq<Price>, side: Side, x: Size): (w: Walked)
    requires forall p :: p in ps ==> p in side
    ensures w.side.Keys == side.Keys
    decreases |ps|
  {
    if ps == [] then Walked(side, 0.0, x, 0.0, [])
    else
      var d := Drain(side[ps[0]], x);
      var side' := side[ps[0] := d.orders];
      var line := if d.filled > 0.0 then [FilledOrder(ps[0], d.filled)] else [];
      var v := Notional(d.filled, ps[0]);
      if d.remaining == 0.0 then Walked(side', d.filled, 0.0, v, line)
      else
        var w := Walk(ps[1..], side', d.remaining);
        Walked(w.side, d.filled + w.filled, w.remaining, v + w.value, line + w.fills)
  }

  /** Walking with an incoming order of zero changes nothing. */
  lemma {:induction false} WalkZero(ps: seq<Price>, side: Side)
    requires Covers(ps, side)
    ensures Walk(ps, side, 0.0) == Walked(side, 0.0, 0.0, 0.0, [])
  {
    if ps != [] {
      DrainZero(side[ps[0]]);
      assert side[ps[0] := side[ps[0]]] == side;
    }
  }

  /** A walk `w` continued from what was accumulated before it. */
  function After(acc: Size, value: real, fills: seq<FilledOrder>, w: Walked): Walked {
    Walked(w.side, acc + w.filled, w.remaining, value + w.value, fills + w.fills)
  }

  lemma AfterAfter(a: Size, v: real, f: seq<FilledOrder>, b: Size, u: real, g: seq<FilledOrder>, w: Walked)
    ensures After(a, v, f, After(b, u, g, w)) == After(a + b, v + u, f + g, w)
  {
    assert f + (g + w.fills) == (f + g) + w.fills;
  }

  /** One step of the walk: drain the first level, then walk the rest with
      what remains. */
  lemma WalkStep(ps: seq<Price>, side: Side, x: Size)
    requires Covers(ps, side) && ps != []
    ensures var d := Drain(side[ps[0]], x);
            var line := if d.filled > 0.0 then [FilledOrder(ps[0], d.filled)] else [];
            Walk(ps, side, x)
              == After(d.filled, Notional(d.filled, ps[0]), line, Walk(ps[1..], side[ps[0] := d.orders], d.remaining))
  {
    var d := Drain(side[ps[0]], x);
    if d.remaining == 0.0 {
      WalkZero(ps[1..], side[ps[0] := d.orders]);
      var line := if d.filled > 0.0 then [FilledOrder(ps[0], d.filled)] else [];
      assert line + [] == line;
    }
  }

  /** The loop state of a walk: the first `i` levels are done, `side` is the
      side now, and `acc`, `value`, `fills` and `rem` are what the loop has
      accumulated. */
  ghost predicate WalkedSoFar(ps: seq<Price>, side0: Side, x: Size, i: nat,
                              side: Side, acc: Size, value: real, fills: seq<FilledOrder>, rem: Size) {
    i <= |ps| && Covers(ps, side0) && Covers(ps, side) &&
    Walk(ps, side0, x) == After(acc, value, fills, Walk(ps[i..], side, rem))
  }

  lemma WalkStart(ps: seq<Price>, side: Side, x: Size)
    requires Covers(ps, side)
    ensures WalkedSoFar(ps, side, x, 0, side, 0.0, 0.0, [], x)
  {
    var w := Walk(ps, side, x);
    assert ps[0..] == ps;
    assert [] + w.fills == w.fills;
  }

  /** One more level walked: the loop state after draining level `ps[i]`
      is the one given in `side'`, `acc'`, `value'`, `fills'` and `rem'`. */
  lemma WalkAdvance(ps: seq<Price>, side0: Side, x: Size, i: nat,
                    side: Side, acc: Size, value: real, fills: seq<FilledOrder>, rem: Size,
                    side': Side, acc': Size, value': real, fills': seq<FilledOrder>, rem': Size)
    requires WalkedSoFar(ps, side0, x, i, side, acc, value, fills, rem) && i < |ps|
    requires var d := Drain(side[ps[i]], rem);
             side' == side[ps[i] := d.orders] && acc' == acc + d.filled &&
             value' == value + Notional(d.filled, ps[i]) && rem' == d.remaining &&
             fills' == fills + (if d.filled > 0.0 then [FilledOrder(ps[i], d.filled)] else [])
    ensures WalkedSoFar(ps, side0, x, i + 1, side', acc', value', fills', rem')
  {
    var qs := ps[i..];
    assert qs[0] == ps[i] && qs[1..] == ps[i + 1..];
    WalkStep(qs, side, rem);
    var d := Drain(side[ps[i]], rem);
    var line := if d.filled > 0.0 then [FilledOrder(ps[i], d.filled)] else [];
    var w := Walk(ps[i + 1..], side[ps[i] := d.orders], d.remaining);
    AfterAfter(acc, value, fills, d.filled, Notional(d.filled, ps[i]), line, w);
  }

  lemma WalkFinish(ps: seq<Price>, side0: Side, x: Size, i: nat,
                   side: Side, acc: Size, value: real, fills: seq<FilledOrder>, rem: Size)
    requires WalkedSoFar(ps, side0, x, i, side, acc, value, fills, rem)
    requires i == |ps| || rem == 0.0
    ensures Walk(ps, side0, x) == Walked(side, acc, rem, value, fills)
  {
    if i < |ps| {
      WalkZero(ps[i..], side);
    }
    assert fills + [] == fills;
  }

  /** The liquidity of the levels `ps`, added up. */
  function LevelsLiquidity(ps: seq<Price>, side: Side): Size
    requires forall p :: p in ps ==> p in side
  {
    if ps == [] then 0.0 else Liquidity(side[ps[0]]) + LevelsLiquidity(ps[1..], side)
  }

  function FillsSize(fs: seq<FilledOrder>): Size {
    if fs == [] then 0.0 else fs[0].size + FillsSize(fs[1..])
  }

  /** The value of `size` units at price `p`. */
  function Notional(size: Size, p: Price): real {
    size * p.ToReal()
  }

  function FillsValue(fs: seq<FilledOrder>): real {
    if fs == [] then 0.0 else Notional(fs[0].size, fs[0].price) + FillsValue(fs[1..])
  }

  /** The report lines name levels of `ps`, in the order of `ps`. */
  ghost predicate InOrder(fs: seq<FilledOrder>, ps: seq<Price>)
    decreases |ps|
  {
    if fs == [] then true
    else if ps == [] then false
    else if fs[0].price == ps[0] then InOrder(fs[1..], ps[1..])
    else InOrder(fs, ps[1..])
  }

  /** The volume-weighted average price, 0 when nothing was filled. */
  function AveragePrice(value: real, filled: Size): (a: real)
    ensures filled > 0.0 ==> a * filled == value
    ensures filled == 0.0 ==> a == 0.0
  {
    if filled > 0.0 then value / filled else 0.0
  }

  function Report(w: Walked): FillResult {
    FillResult(w.filled, w.remaining, AveragePrice(w.value, w.filled), w.fills)
  }

  lemma {:induction false} LevelsFrame(ps: seq<Price>, s: Side, t: Side)
    requires Covers(ps, s) && Covers(ps, t)
    requires forall p :: p in ps ==> s[p] == t[p]
    ensures LevelsLiquidity(ps, s) == LevelsLiquidity(ps, t)
  {
    if ps != [] {
      LevelsFrame(ps[1..], s, t);
    }
  }

  lemma {:induction false} LevelsZero(ps: seq<Price>, s: Side)
    requires Covers(ps, s)
    requires LevelsLiquidity(ps, s) == 0.0
    ensures forall p :: p in ps ==> Liquidity(s[p]) == 0.0
  {
    if ps != [] {
      LevelsZero(ps[1..], s);
      assert forall p :: p in ps ==> p == ps[0] || p in ps[1..];
    }
  }

  /** Walking touches only the walked levels and keeps every level present. */
  lemma {:induction false} WalkFrame(ps: seq<Price>, side: Side, x: Size)
    requires Covers(ps, side)
    ensures Walk(ps, side, x).side.Keys == side.Keys
    ensures forall p :: p in side && p !in ps ==> Walk(ps, side, x).side[p] == side[p]
  {
    if ps != [] {
      var d := Drain(side[ps[0]], x);
      var side' := side[ps[0] := d.orders];
      if d.remaining != 0.0 {
        WalkFrame(ps[1..], side', d.remaining);
      }
    }
  }

  /** Size is conserved and the walk fills `Min(x, liquidity of the levels)`;
      when the levels hold no more than `x`, every one of them is emptied. */
  lemma {:induction false} WalkConserves(ps: seq<Price>, side: Side, x: Size)
    requires Covers(ps, side) && Distinct(ps)
    ensures Walk(ps, side, x).filled + Walk(ps, side, x).remaining == x
    ensures LevelsLiquidity(ps, Walk(ps, side, x).side) + Walk(ps, side, x).filled
         == LevelsLiquidity(ps, side)
    ensures Walk(ps, side, x).filled == Min(x, LevelsLiquidity(ps, side))
  {
    WalkFrame(ps, side, x);
    if ps != [] {
      var d := Drain(side[ps[0]], x);
      var side' := side[ps[0] := d.orders];
      DrainConserves(side[ps[0]], x);
      DrainAmount(side[ps[0]], x);
      assert ps[0] !in ps[1..];
      LevelsFrame(ps[1..], side', side);
      if d.remaining != 0.0 {
        var w := Walk(ps[1..], side', d.remaining);
        WalkConserves(ps[1..], side', d.remaining);
        WalkFrame(ps[1..], side', d.remaining);
      }
    }
  }

  /** A walk that leaves part of the incoming order unfilled emptied every
      walked level: this is a partial fill, not an error. */
  lemma ShortfallEmptiesLevels(ps: seq<Price>, side: Side, x: Size)
    requires Covers(ps, side) && Distinct(ps)
    requires Walk(ps, side, x).remaining > 0.0
    ensures Walk(ps, side, x).filled == LevelsLiquidity(ps, side) < x
    ensures forall p :: p in ps ==> AllFilled(Walk(ps, side, x).side[p])
  {
    var w := Walk(ps, side, x);
    WalkConserves(ps, side, x);
    WalkFrame(ps, side, x);
    LevelsZero(ps, w.side);
    forall p | p in ps ensures AllFilled(w.side[p]) {
      LiquidityZeroIffAllFilled(w.side[p]);
    }
  }

  /** Price priority: a level is touched only when every better level (one
      earlier in `ps`) has been emptied. */
  lemma {:induction false} WalkPriority(ps: seq<Price>, side: Side, x: Size, i: nat, j: nat)
    requires Covers(ps, side) && Distinct(ps)
    requires i < j < |ps|
    ensures Walk(ps, side, x).side[ps[j]] != side[ps[j]] ==> AllFilled(Walk(ps, side, x).side[ps[i]])
  {
    var w := Walk(ps, side, x);
    var d := Drain(side[ps[0]], x);
    var side' := side[ps[0] := d.orders];
    assert ps[0] != ps[j];
    if d.remaining == 0.0 {
      assert w.side == side';
    } else {
      var r := Walk(ps[1..], side', d.remaining);
      assert w.side == r.side;
      assert ps[1..][j - 1] == ps[j];
      if i == 0 {
        assert ps[0] !in ps[1..];
        WalkFrame(ps[1..], side', d.remaining);
        DrainAmount(side[ps[0]], x);
        LiquidityZeroIffAllFilled(d.orders);
      } else {
        assert ps[1..][i - 1] == ps[i];
        WalkPriority(ps[1..], side', d.remaining, i - 1, j - 1);
      }
    }
  }

  /** The walk stops once the incoming order is filled: a level behind
      levels that together hold at least `x` is not touched. */
  lemma {:induction false} WalkStopsWhenFilled(ps: seq<Price>, side: Side, x: Size, j: nat)
    requires Covers(ps, side) && Distinct(ps) && j < |ps|
    requires x <= LevelsLiquidity(ps[..j], side)
    ensures Walk(ps, side, x).side[ps[j]] == side[ps[j]]
  {
    if j == 0 {
      WalkZero(ps, side);
    } else {
      var d := Drain(side[ps[0]], x);
      var side' := side[ps[0] := d.orders];
      assert ps[0] != ps[j];
      if d.remaining != 0.0 {
        DrainAmount(side[ps[0]], x);
        DrainConserves(side[ps[0]], x);
        var qs := ps[1..][..j - 1];
        assert ps[..j][0] == ps[0] && ps[..j][1..] == qs;
        assert ps[0] !in qs;
        LevelsFrame(qs, side', side);
        assert ps[1..][j - 1] == ps[j];
        WalkStopsWhenFilled(ps[1..], side', d.remaining, j - 1);
      }
    }
  }

  /** Every report line names a walked level that gave a positive amount,
      and holds exactly what that level gave. */
  lemma {:induction false} WalkLinesSound(ps: seq<Price>, side: Side, x: Size)
    requires Covers(ps, side) && Distinct(ps)
    ensures forall f :: f in Walk(ps, side, x).fills ==>
      f.price in ps && f.size > 0.0 &&
      f.size + Liquidity(Walk(ps, side, x).side[f.price]) == Liquidity(side[f.price])
  {
    if ps != [] {
      var w := Walk(ps, side, x);
      var d := Drain(side[ps[0]], x);
      var side' := side[ps[0] := d.orders];
      var line := if d.filled > 0.0 then [FilledOrder(ps[0], d.filled)] else [];
      DrainConserves(side[ps[0]], x);
      if d.remaining != 0.0 {
        var r := Walk(ps[1..], side', d.remaining);
        WalkLinesSound(ps[1..], side', d.remaining);
        WalkFrame(ps[1..], side', d.remaining);
        assert w.fills == line + r.fills;
        assert ps[0] !in ps[1..];
        forall f | f in r.fills
          ensures f.price != ps[0] && f.price in ps
        {
        }
      }
    }
  }

  /** Every walked level that gave something has a report line. */
  lemma {:induction false} WalkLinesComplete(ps: seq<Price>, side: Side, x: Size)
    requires Covers(ps, side) && Distinct(ps)
    ensures forall p :: p in ps && Liquidity(Walk(ps, side, x).side[p]) < Liquidity(side[p]) ==>
      exists f :: f in Walk(ps, side, x).fills && f.price == p
  {
    WalkFrame(ps, side, x);
    if ps != [] {
      var w := Walk(ps, side, x);
      var d := Drain(side[ps[0]], x);
      var side' := side[ps[0] := d.orders];
      var line := if d.filled > 0.0 then [FilledOrder(ps[0], d.filled)] else [];
      DrainConserves(side[ps[0]], x);
      assert ps[0] !in ps[1..];
      if d.remaining == 0.0 {
        forall p | p in ps && Liquidity(w.side[p]) < Liquidity(side[p])
          ensures exists f :: f in w.fills && f.price == p
        {
          assert p == ps[0];
          assert w.fills[0].price == p;
        }
      } else {
        var r := Walk(ps[1..], side', d.remaining);
        WalkLinesComplete(ps[1..], side', d.remaining);
        WalkFrame(ps[1..], side', d.remaining);
        assert w.fills == line + r.fills;
        forall p | p in ps && Liquidity(w.side[p]) < Liquidity(side[p])
          ensures exists f :: f in w.fills && f.price == p
        {
          if p == ps[0] {
            assert w.fills[0].price == p;
          } else {
            assert p in ps[1..];
            var f :| f in r.fills && f.price == p;
            assert f in w.fills;
          }
        }
      }
    }
  }

  /** The report lines follow the walk order. */
  lemma {:induction false} WalkLinesInOrder(ps: seq<Price>, side: Side, x: Size)
    requires Covers(ps, side) && Distinct(ps)
    ensures InOrder(Walk(ps, side, x).fills, ps)
  {
    if ps != [] {
      var w := Walk(ps, side, x);
      var d := Drain(side[ps[0]], x);
      var side' := side[ps[0] := d.orders];
      var line := if d.filled > 0.0 then [FilledOrder(ps[0], d.filled)] else [];
      if d.remaining == 0.0 {
        assert InOrder([], ps[1..]);
      } else {
        var r := Walk(ps[1..], side', d.remaining);
        WalkLinesInOrder(ps[1..], side', d.remaining);
        assert w.fills == line + r.fills;
        if d.filled > 0.0 {
          assert w.fills[1..] == r.fills;
        } else if r.fills != [] {
          assert w.fills == r.fills;
          WalkLinesSound(ps[1..], side', d.remaining);
          assert r.fills[0] in r.fills;
          assert ps[0] !in ps[1..];
        }
      }
    }
  }

  /** The report lines add up to the filled size. */
  lemma {:induction false} WalkLinesSize(ps: seq<Price>, side: Side, x: Size)
    requires Covers(ps, side)
    ensures FillsSize(Walk(ps, side, x).fills) == Walk(ps, side, x).filled
  {
    if ps != [] {
      var w := Walk(ps, side, x);
      var d := Drain(side[ps[0]], x);
      var side' := side[ps[0] := d.orders];
      var line := if d.filled > 0.0 then [FilledOrder(ps[0], d.filled)] else [];
      if d.remaining != 0.0 {
        var r := Walk(ps[1..], side', d.remaining);
        WalkLinesSize(ps[1..], side', d.remaining);
        if d.filled > 0.0 {
          assert w.fills[1..] == r.fills;
        } else {
          assert w.fills == r.fills;
        }
      }
    }
  }

  /** The report lines, weighted by price, add up to the filled value. */
  lemma {:induction false} WalkLinesValue(ps: seq<Price>, side: Side, x: Size)
    requires Covers(ps, side)
    ensures FillsValue(Walk(ps, side, x).fills) == Walk(ps, side, x).value
  {
    if ps != [] {
      var w := Walk(ps, side, x);
      var d := Drain(side[ps[0]], x);
      var side' := side[ps[0] := d.orders];
      var line := if d.filled > 0.0 then [FilledOrder(ps[0], d.filled)] else [];
      if d.filled == 0.0 {
        assert Notional(d.filled, ps[0]) == 0.0;
      }
      if d.remaining != 0.0 {
        var r := Walk(ps[1..], side', d.remaining);
        WalkLinesValue(ps[1..], side', d.remaining);
        if d.filled > 0.0 {
          assert w.fills[1..] == r.fills;
        } else {
          assert w.fills == r.fills;
        }
      }
    }
  }

  /** `fs` weighted by price is at least `lo` times its size when every
      line is priced at `lo` or more. */
  lemma {:induction false} FillsValueAbove(fs: seq<FilledOrder>, lo: real)
    requires forall f :: f in fs ==> lo <= f.price.ToReal()
    ensures lo * FillsSize(fs) <= FillsValue(fs)
  {
    if fs != [] {
      FillsValueAbove(fs[1..], lo);
      assert fs[0] in fs;
      var s, p, s', v' := fs[0].size, fs[0].price.ToReal(), FillsSize(fs[1..]), FillsValue(fs[1..]);
      assert FillsSize(fs) == s + s';
      assert FillsValue(fs) == s * p + v';
      StepAbove(s, p, lo, s', v');
    }
  }

  /** `fs` weighted by price is at most `hi` times its size when every line
      is priced at `hi` or less. */
  lemma {:induction false} FillsValueBelow(fs: seq<FilledOrder>, hi: real)
    requires forall f :: f in fs ==> f.price.ToReal() <= hi
    ensures FillsValue(fs) <= hi * FillsSize(fs)
  {
    if fs != [] {
      FillsValueBelow(fs[1..], hi);
      assert fs[0] in fs;
      var s, p, s', v' := fs[0].size, fs[0].price.ToReal(), FillsSize(fs[1..]), FillsValue(fs[1..]);
      assert FillsSize(fs) == s + s';
      assert FillsValue(fs) == s * p + v';
      StepBelow(s, p, hi, s', v');
    }
  }

  lemma StepAbove(s: real, p: real, lo: real, s': real, v': real)
    requires s >= 0.0 && lo <= p && lo * s' <= v'
    ensures lo * (s + s') <= s * p + v'
  {
    assert s * (p - lo) >= 0.0;
  }

  lemma StepBelow(s: real, p: real, hi: real, s': real, v': real)
    requires s >= 0.0 && p <= hi && v' <= hi * s'
    ensures s * p + v' <= hi * (s + s')
  {
    assert s * (hi - p) >= 0.0;
  }

  /** Orders of `side` all belong to side `t`. */
  ghost predicate HoldsOnly(side: Side, t: OrderType) {
    forall p, i :: p in side && 0 <= i < |side[p]| ==> side[p][i].orderType == t
  }

  /** Matching never moves an order to another side. */
  lemma {:induction false} WalkKeepsSide(ps: seq<Price>, side: Side, x: Size, t: OrderType)
    requires Covers(ps, side) && HoldsOnly(side, t)
    ensures HoldsOnly(Walk(ps, side, x).side, t)
  {
    if ps != [] {
      var d := Drain(side[ps[0]], x);
      DrainKeepsQueue(side[ps[0]], x);
      var side' := side[ps[0] := d.orders];
      assert HoldsOnly(side', t);
      if d.remaining != 0.0 {
        WalkKeepsSide(ps[1..], side', d.remaining, t);
      }
    }
  }

  /** Appends `o` to the queue at `p`, creating the level when absent. */
  function Append(side: Side, p: Price, o: Order): Side {
    side[p := (if p in side then side[p] else []) + [o]]
  }

  /** What one matching call produces: the book afterwards, the report, and
      the incoming order with its remaining size. */
  datatype Matched = Matched(book: BookView, report: FillResult, order: Order)

  /** An order book as values: the ask side and the bid side. */
  datatype BookView = BookView(asks: Side, bids: Side) {

    /** Posts a resting order on its own side at `price`. */
    function Add(price: Price, order: Order): BookView {
      match order.orderType
      case Ask => BookView(Append(asks, price, order), bids)
      case Bid => BookView(asks, Append(bids, price, order))
    }

    /** Ask levels cheapest first. */
    ghost function AskPriority(): seq<Price> {
      AscendingOf(asks.Keys)
    }

    /** Bid levels highest first. */
    ghost function BidPriority(): seq<Price> {
      Reverse(AscendingOf(bids.Keys))
    }

    /** Matches an incoming order against the opposite side: an Ask consumes
        bids, a Bid consumes asks. */
    ghost function Match(order: Order): Matched {
      match order.orderType
      case Ask =>
        ReverseOfAscending(AscendingOf(bids.Keys));
        var w := Walk(BidPriority(), bids, order.size);
        Matched(BookView(asks, w.side), Report(w), order.(size := w.remaining))
      case Bid =>
        var w := Walk(AskPriority(), asks, order.size);
        Matched(BookView(w.side, bids), Report(w), order.(size := w.remaining))
    }

    /** Every order rests on the side its type names. */
    ghost predicate WellSided() {
      HoldsOnly(asks, Ask) && HoldsOnly(bids, Bid)
    }
  }

  const EmptyBook := BookView(map[], map[])

  /** The walk orders of a book: each side's prices exactly once, asks
      cheapest first and bids highest first. */
  lemma PriorityOrders(book: BookView)
    ensures StrictlyAscending(book.AskPriority()) && Elems(book.AskPriority()) == book.asks.Keys
    ensures StrictlyDescending(book.BidPriority()) && Elems(book.BidPriority()) == book.bids.Keys
  {
    ReverseOfAscending(AscendingOf(book.bids.Keys));
  }

  /** Posting appends the order at the end of the queue of its price on its
      own side, creating the level if it is absent; the other side and every
      other level are unchanged, and the level gains the order's size. */
  lemma AddAppends(book: BookView, price: Price, order: Order)
    ensures var own := if order.orderType == Ask then book.asks else book.bids;
            var own' := if order.orderType == Ask then book.Add(price, order).asks
                        else book.Add(price, order).bids;
            own'.Keys == own.Keys + {price} &&
            own'[price] == (if price in own then own[price] else []) + [order] &&
            (forall q :: q in own && q != price ==> own'[q] == own[q]) &&
            Liquidity(own'[price]) == (if price in own then Liquidity(own[price]) else 0.0) + order.size
    ensures order.orderType == Ask ==> book.Add(price, order).bids == book.bids
    ensures order.orderType == Bid ==> book.Add(price, order).asks == book.asks
  {
    var own := if order.orderType == Ask then book.asks else book.bids;
    LiquidityAppend(if price in own then own[price] else [], order);
  }

  /** Posting keeps every order on the side its type names. */
  lemma AddKeepsWellSided(book: BookView, price: Price, order: Order)
    requires book.WellSided()
    ensures book.Add(price, order).WellSided()
  {
  }

  /** Matching keeps every order on the side its type names. */
  lemma MatchKeepsWellSided(book: BookView, order: Order)
    requires book.WellSided()
    ensures book.Match(order).book.WellSided()
  {
    match order.orderType
    case Ask =>
      ReverseOfAscending(AscendingOf(book.bids.Keys));
      WalkKeepsSide(book.BidPriority(), book.bids, order.size, Bid);
    case Bid =>
      WalkKeepsSide(book.AskPriority(), book.asks, order.size, Ask);
  }

  /** The levels an incoming order walks, best price first, and the side
      holding them. */
  ghost function Opposite(book: BookView, t: OrderType): Side {
    if t == Ask then book.bids else book.asks
  }

  ghost function Priority(book: BookView, t: OrderType): (ps: seq<Price>)
    ensures Elems(ps) == Opposite(book, t).Keys && Distinct(ps)
  {
    if t == Ask then
      ReverseOfAscending(AscendingOf(book.bids.Keys));
      book.BidPriority()
    else
      book.AskPriority()
  }

  lemma MatchIsWalk(book: BookView, order: Order)
    ensures Covers(Priority(book, order.orderType), Opposite(book, order.orderType))
    ensures var w := Walk(Priority(book, order.orderType), Opposite(book, order.orderType), order.size);
            var m := book.Match(order);
            m.report == Report(w) && m.order == order.(size := w.remaining) &&
            (order.orderType == Ask ==> m.book == BookView(book.asks, w.side)) &&
            (order.orderType == Bid ==> m.book == BookView(w.side, book.bids))
  {
    var ps := Priority(book, order.orderType);
    assert forall p :: p in ps ==> p in Elems(ps);
  }

  /** Size is conserved: the filled and the remaining size add up to the
      incoming size, the report's remaining size is the incoming order's new
      size, the filled size is `Min(size, opposite liquidity)`, and it is
      exactly what the opposite side lost. The average price is 0 when
      nothing was filled. */
  lemma MatchConserves(book: BookView, order: Order)
    ensures var m := book.Match(order);
            var ps := Priority(book, order.orderType);
            var opp := Opposite(book, order.orderType);
            var opp' := Opposite(m.book, order.orderType);
            Covers(ps, opp) && Covers(ps, opp') &&
            m.report.filledSize + m.report.remainingSize == order.size &&
            m.order.size == m.report.remainingSize &&
            m.order.orderType == order.orderType &&
            m.report.filledSize == Min(order.size, LevelsLiquidity(ps, opp)) &&
            LevelsLiquidity(ps, opp') + m.report.filledSize == LevelsLiquidity(ps, opp) &&
            (m.report.filledSize == 0.0 ==> m.report.avgFillPrice == 0.0) &&
            (m.report.remainingSize > 0.0 ==> !m.order.IsFilled())
  {
    var ps := Priority(book, order.orderType);
    var opp := Opposite(book, order.orderType);
    MatchIsWalk(book, order);
    WalkConserves(ps, opp, order.size);
    WalkFrame(ps, opp, order.size);
  }

  /** An Ask consumes only bids and a Bid consumes only asks; no level
      appears or disappears. */
  lemma MatchTouchesOppositeOnly(book: BookView, order: Order)
    ensures order.orderType == Ask ==>
      book.Match(order).book.asks == book.asks && book.Match(order).book.bids.Keys == book.bids.Keys
    ensures order.orderType == Bid ==>
      book.Match(order).book.bids == book.bids && book.Match(order).book.asks.Keys == book.asks.Keys
  {
    MatchIsWalk(book, order);
  }

  /** Price priority for a Bid: an ask level is touched only when every
      cheaper ask level has been emptied. */
  lemma BidTakesCheapestFirst(book: BookView, order: Order, p: Price, q: Price)
    requires order.orderType == Bid
    requires p in book.asks && q in book.asks && Less(p, q)
    ensures book.Match(order).book.asks[q] != book.asks[q] ==> AllFilled(book.Match(order).book.asks[p])
  {
    var ps := book.AskPriority();
    assert p in Elems(ps) && q in Elems(ps);
    var i :| 0 <= i < |ps| && ps[i] == p;
    var j :| 0 <= j < |ps| && ps[j] == q;
    AscendingIndexOrder(ps, i, j);
    MatchIsWalk(book, order);
    WalkPriority(ps, book.asks, order.size, i, j);
  }

  /** Price priority for an Ask: a bid level is touched only when every
      higher bid level has been emptied. */
  lemma AskTakesHighestFirst(book: BookView, order: Order, p: Price, q: Price)
    requires order.orderType == Ask
    requires p in book.bids && q in book.bids && Less(q, p)
    ensures book.Match(order).book.bids[q] != book.bids[q] ==> AllFilled(book.Match(order).book.bids[p])
  {
    var ps := book.BidPriority();
    ReverseOfAscending(AscendingOf(book.bids.Keys));
    assert p in Elems(ps) && q in Elems(ps);
    var i :| 0 <= i < |ps| && ps[i] == p;
    var j :| 0 <= j < |ps| && ps[j] == q;
    DescendingIndexOrder(ps, i, j);
    MatchIsWalk(book, order);
    WalkPriority(ps, book.bids, order.size, i, j);
  }

  /** A Bid stops at the ask level where it is filled: an ask level behind
      cheaper levels holding at least its size is not touched. */
  lemma BidStopsWhenFilled(book: BookView, order: Order, j: nat)
    requires order.orderType == Bid && j < |book.AskPriority()|
    requires order.size <= LevelsLiquidity(book.AskPriority()[..j], book.asks)
    ensures book.Match(order).book.asks[book.AskPriority()[j]] == book.asks[book.AskPriority()[j]]
  {
    MatchIsWalk(book, order);
    WalkStopsWhenFilled(book.AskPriority(), book.asks, order.size, j);
  }

  /** An Ask stops at the bid level where it is filled: a bid level behind
      higher levels holding at least its size is not touched. */
  lemma AskStopsWhenFilled(book: BookView, order: Order, j: nat)
    requires order.orderType == Ask && j < |book.BidPriority()|
    requires order.size <= LevelsLiquidity(book.BidPriority()[..j], book.bids)
    ensures book.Match(order).book.bids[book.BidPriority()[j]] == book.bids[book.BidPriority()[j]]
  {
    PriorityOrders(book);
    MatchIsWalk(book, order);
    WalkStopsWhenFilled(book.BidPriority(), book.bids, order.size, j);
  }

  /** Report lines taken in cheapest-first order are cheapest first. */
  lemma {:induction false} InOrderAscending(fs: seq<FilledOrder>, ps: seq<Price>)
    requires InOrder(fs, ps) && StrictlyAscending(ps)
    ensures forall f :: f in fs ==> f.price in ps
    ensures forall k, l :: 0 <= k < l < |fs| ==> Less(fs[k].price, fs[l].price)
    decreases |ps|
  {
    if fs != [] && ps != [] {
      if fs[0].price == ps[0] {
        InOrderAscending(fs[1..], ps[1..]);
        assert forall f :: f in fs[1..] ==> Less(ps[0], f.price);
        assert forall k :: 0 < k < |fs| ==> fs[k] in fs[1..];
      } else {
        InOrderAscending(fs, ps[1..]);
      }
    }
  }

  /** Report lines taken in highest-first order are highest first. */
  lemma {:induction false} InOrderDescending(fs: seq<FilledOrder>, ps: seq<Price>)
    requires InOrder(fs, ps) && StrictlyDescending(ps)
    ensures forall f :: f in fs ==> f.price in ps
    ensures forall k, l :: 0 <= k < l < |fs| ==> Less(fs[l].price, fs[k].price)
    decreases |ps|
  {
    if fs != [] && ps != [] {
      if fs[0].price == ps[0] {
        InOrderDescending(fs[1..], ps[1..]);
        assert forall f :: f in fs[1..] ==> Less(f.price, ps[0]);
        assert forall k :: 0 < k < |fs| ==> fs[k] in fs[1..];
      } else {
        InOrderDescending(fs, ps[1..]);
      }
    }
  }

  lemma AverageWithin(value: real, filled: Size, lo: real, hi: real)
    requires filled > 0.0 && lo * filled <= value <= hi * filled
    ensures lo <= AveragePrice(value, filled) <= hi
  {
    assert value / filled * filled == value;
  }

  /** The report of a match: one line per opposite level that gave a
      positive amount, in best-price-first order, each holding exactly what
      its level gave, and adding up to the filled size. */
  lemma MatchReportLines(book: BookView, order: Order)
    ensures var m := book.Match(order);
            var ps := Priority(book, order.orderType);
            var opp := Opposite(book, order.orderType);
            var opp' := Opposite(m.book, order.orderType);
            opp'.Keys == opp.Keys &&
            InOrder(m.report.filledOrders, ps) &&
            FillsSize(m.report.filledOrders) == m.report.filledSize &&
            (forall f :: f in m.report.filledOrders ==>
              f.price in opp && f.size > 0.0 &&
              f.size + Liquidity(opp'[f.price]) == Liquidity(opp[f.price])) &&
            (forall p :: p in opp && Liquidity(opp'[p]) < Liquidity(opp[p]) ==>
              exists f :: f in m.report.filledOrders && f.price == p)
  {
    var ps := Priority(book, order.orderType);
    var opp := Opposite(book, order.orderType);
    MatchIsWalk(book, order);
    WalkFrame(ps, opp, order.size);
    WalkLinesSound(ps, opp, order.size);
    WalkLinesComplete(ps, opp, order.size);
    WalkLinesInOrder(ps, opp, order.size);
    WalkLinesSize(ps, opp, order.size);
    assert forall p :: p in opp ==> p in Elems(ps);
  }

  /** Lines whose prices lie between `lo` and `hi` in the price order have
      values between those of `lo` and `hi`. */
  lemma LinesPricedWithin(fs: seq<FilledOrder>, lo: Price, hi: Price)
    requires forall f :: f in fs ==> (f.price == lo || Less(lo, f.price)) && (f.price == hi || Less(f.price, hi))
    ensures forall f :: f in fs ==> lo.ToReal() <= f.price.ToReal() <= hi.ToReal()
  {
    forall f | f in fs ensures lo.ToReal() <= f.price.ToReal() <= hi.ToReal() {
      LessIsNumericOrder(lo, f.price);
      LessIsNumericOrder(f.price, hi);
    }
  }

  /** The volume-weighted average of lines priced within [l, h] lies within
      [l, h]. */
  lemma LinesAverage(fs: seq<FilledOrder>, l: real, h: real)
    requires FillsSize(fs) > 0.0
    requires forall f :: f in fs ==> l <= f.price.ToReal() <= h
    ensures l <= AveragePrice(FillsValue(fs), FillsSize(fs)) <= h
  {
    var v, n := FillsValue(fs), FillsSize(fs);
    assert l * n <= v by { FillsValueAbove(fs, l); }
    assert v <= h * n by { FillsValueBelow(fs, h); }
    AverageWithin(v, n, l, h);
  }

  /** `a` lies between the values of the prices `lo` and `hi`. */
  predicate Between(lo: Price, a: real, hi: Price) {
    lo.ToReal() <= a <= hi.ToReal()
  }

  /** Report lines in ascending price order average between the first and
      the last price. */
  lemma AscendingLinesAverage(fs: seq<FilledOrder>, value: real, filled: Size)
    requires value == FillsValue(fs) && filled == FillsSize(fs) > 0.0
    requires forall k, l :: 0 <= k < l < |fs| ==> Less(fs[k].price, fs[l].price)
    ensures |fs| > 0 &&
            Between(fs[0].price, AveragePrice(value, filled), fs[|fs| - 1].price)
  {
    assert fs != [];
    var n := |fs| - 1;
    forall f | f in fs
      ensures (f.price == fs[0].price || Less(fs[0].price, f.price))
      ensures (f.price == fs[n].price || Less(f.price, fs[n].price))
    {
      var k :| 0 <= k < |fs| && fs[k] == f;
    }
    LinesPricedWithin(fs, fs[0].price, fs[n].price);
    LinesAverage(fs, fs[0].price.ToReal(), fs[n].price.ToReal());
  }

  /** Report lines in descending price order average between the last and
      the first price. */
  lemma DescendingLinesAverage(fs: seq<FilledOrder>, value: real, filled: Size)
    requires value == FillsValue(fs) && filled == FillsSize(fs) > 0.0
    requires forall k, l :: 0 <= k < l < |fs| ==> Less(fs[l].price, fs[k].price)
    ensures |fs| > 0 &&
            Between(fs[|fs| - 1].price, AveragePrice(value, filled), fs[0].price)
  {
    assert fs != [];
    var n := |fs| - 1;
    forall f | f in fs
      ensures (f.price == fs[n].price || Less(fs[n].price, f.price))
      ensures (f.price == fs[0].price || Less(f.price, fs[0].price))
    {
      var k :| 0 <= k < |fs| && fs[k] == f;
    }
    LinesPricedWithin(fs, fs[n].price, fs[0].price);
    LinesAverage(fs, fs[n].price.ToReal(), fs[0].price.ToReal());
  }

  /** Walking cheapest first, the average price lies between the first and
      the last price filled. */
  lemma WalkAverageAscending(ps: seq<Price>, side: Side, x: Size)
    requires Covers(ps, side) && StrictlyAscending(ps)
    requires Walk(ps, side, x).filled > 0.0
    ensures var w := Walk(ps, side, x);
            |w.fills| > 0 &&
            Between(w.fills[0].price, AveragePrice(w.value, w.filled), w.fills[|w.fills| - 1].price)
  {
    var w := Walk(ps, side, x);
    WalkLinesSize(ps, side, x);
    WalkLinesValue(ps, side, x);
    assert forall k, l :: 0 <= k < l < |w.fills| ==> Less(w.fills[k].price, w.fills[l].price) by {
      WalkLinesInOrder(ps, side, x);
      InOrderAscending(w.fills, ps);
    }
    AscendingLinesAverage(w.fills, w.value, w.filled);
    assert Between(w.fills[0].price, AveragePrice(w.value, w.filled), w.fills[|w.fills| - 1].price);
  }

  /** Walking highest first, the average price lies between the last and
      the first price filled. */
  lemma WalkAverageDescending(ps: seq<Price>, side: Side, x: Size)
    requires Covers(ps, side) && StrictlyDescending(ps)
    requires Walk(ps, side, x).filled > 0.0
    ensures var w := Walk(ps, side, x);
            |w.fills| > 0 &&
            Between(w.fills[|w.fills| - 1].price, AveragePrice(w.value, w.filled), w.fills[0].price)
  {
    var w := Walk(ps, side, x);
    WalkLinesSize(ps, side, x);
    WalkLinesValue(ps, side, x);
    assert forall k, l :: 0 <= k < l < |w.fills| ==> Less(w.fills[l].price, w.fills[k].price) by {
      WalkLinesInOrder(ps, side, x);
      InOrderDescending(w.fills, ps);
    }
    DescendingLinesAverage(w.fills, w.value, w.filled);
    assert Between(w.fills[|w.fills| - 1].price, AveragePrice(w.value, w.filled), w.fills[0].price);
  }

  /** The average fill price is volume weighted over the report lines, so it
      lies between the first (best) and the last (worst) price filled. */
  lemma MatchAveragePrice(book: BookView, order: Order)
    ensures var r := book.Match(order).report;
            r.filledSize > 0.0 ==>
              |r.filledOrders| > 0 &&
              var first, last := r.filledOrders[0].price, r.filledOrders[|r.filledOrders| - 1].price;
              (order.orderType == Bid ==> first.ToReal() <= r.avgFillPrice <= last.ToReal()) &&
              (order.orderType == Ask ==> last.ToReal() <= r.avgFillPrice <= first.ToReal())
  {
    var ps := Priority(book, order.orderType);
    var opp := Opposite(book, order.orderType);
    MatchIsWalk(book, order);
    if Walk(ps, opp, order.size).filled > 0.0 {
      if order.orderType == Bid {
        WalkAverageAscending(ps, opp, order.size);
      } else {
        ReverseOfAscending(AscendingOf(book.bids.Keys));
        WalkAverageDescending(ps, opp, order.size);
      }
    }
  }

  /** The bid levels of the example below. */
  function ExampleBids(): Side {
    map[Price(1000, 0) := [Order(Bid, 40.0)], Price(990, 0) := [Order(Bid, 35.0)]]
  }

  lemma ExampleBook()
    ensures EmptyBook.Add(Price(1000, 0), Order(Bid, 40.0)).Add(Price(990, 0), Order(Bid, 35.0))
         == BookView(map[], ExampleBids())
  {
    var o1, o2 := Order(Bid, 40.0), Order(Bid, 35.0);
    assert [] + [o1] == [o1] && [] + [o2] == [o2];
  }

  lemma ExamplePriority()
    ensures BookView(map[], ExampleBids()).BidPriority() == [Price(1000, 0), Price(990, 0)]
  {
    var p1000, p990 := Price(1000, 0), Price(990, 0);
    assert Elems([p990, p1000]) == ExampleBids().Keys;
    AscendingUnique([p990, p1000], AscendingOf(ExampleBids().Keys));
  }

  lemma ExampleWalk()
    ensures Walk([Price(1000, 0), Price(990, 0)], ExampleBids(), 30.0)
         == Walked(ExampleBids()[Price(1000, 0) := [Order(Bid, 10.0)]], 30.0, 0.0, 30000.0,
                   [FilledOrder(Price(1000, 0), 30.0)])
  {
    assert Drain([Order(Bid, 40.0)], 30.0) == Drained([Order(Bid, 10.0)], 30.0, 0.0);
    assert Notional(30.0, Price(1000, 0)) == 30000.0;
  }

  /** Bids of 40 at 1000 and 35 at 990; a sell order of 30 is filled
      entirely at the best bid, 1000, which keeps 10, and the bid at 990 is
      not touched. */
  lemma SellIntoTwoBidsExample()
    ensures var p1000, p990 := Price(1000, 0), Price(990, 0);
            var book := EmptyBook.Add(p1000, Order(Bid, 40.0)).Add(p990, Order(Bid, 35.0));
            var m := book.Match(Order(Ask, 30.0));
            m.report == FillResult(30.0, 0.0, 1000.0, [FilledOrder(p1000, 30.0)]) &&
            m.order == Order(Ask, 0.0) &&
            m.book == BookView(map[], map[p1000 := [Order(Bid, 10.0)], p990 := [Order(Bid, 35.0)]])
  {
    ExampleBook();
    ExamplePriority();
    ExampleWalk();
    assert AveragePrice(30000.0, 30.0) == 1000.0;
    assert ExampleBids()[Price(1000, 0) := [Order(Bid, 10.0)]]
        == map[Price(1000, 0) := [Order(Bid, 10.0)], Price(990, 0) := [Order(Bid, 35.0)]];
  }
}
