/**
  Food bookkeeping: the food list is an ordered sequence of dots (the order
  in which `generateFood` pushed them), searched with `findIndex`, shrunk with
  `splice`, and refilled by rejection sampling.
 */
module Food {
  import opened Grid

  /** No dot occurs twice. */
  predicate Distinct(cs: seq<Cell>)
  {
    forall i, j :: 0 <= i < j < |cs| ==> cs[i] != cs[j]
  }

  /** `findIndex`: the index of the first occurrence of `c`, or -1. */
  function IndexOf(cs: seq<Cell>, c: Cell): (i: int)
    ensures -1 <= i < |cs|
    ensures i == -1 <==> c !in cs
    ensures 0 <= i ==> cs[i] == c && c !in cs[..i]
  {
    if |cs| == 0 then -1
    else if cs[0] == c then 0
    else
      var k := IndexOf(cs[1..], c);
      if k == -1 then -1
      else
        assert cs[..k + 1] == [cs[0]] + cs[1..][..k];
        k + 1
  }

  /** `splice(i, 1)`: drop the element at index `i`. */
  function RemoveAt(cs: seq<Cell>, i: nat): (r: seq<Cell>)
    requires i < |cs|
    ensures |r| == |cs| - 1
    ensures forall j :: 0 <= j < i ==> r[j] == cs[j]
    ensures forall j :: i <= j < |r| ==> r[j] == cs[j + 1]
  {
    cs[..i] + cs[i + 1..]
  }

  /** Removing the element at `i` from a list without repeats removes exactly
      that dot and keeps the list free of repeats. */
  lemma RemoveAtDistinct(cs: seq<Cell>, i: nat)
    requires i < |cs| && Distinct(cs)
    ensures Distinct(RemoveAt(cs, i))
    ensures forall c :: c in RemoveAt(cs, i) <==> c in cs && c != cs[i]
  {
    var r := RemoveAt(cs, i);
    forall c
      ensures c in r <==> c in cs && c != cs[i]
    {
      if c in r {
        var j :| 0 <= j < |r| && r[j] == c;
        if j < i { assert cs[j] == c; } else { assert cs[j + 1] == c; }
      }
      if c in cs && c != cs[i] {
        var j :| 0 <= j < |cs| && cs[j] == c;
        if j < i { assert r[j] == c; } else { assert r[j - 1] == c; }
      }
    }
  }

  /**
    `generateFood`: while there are fewer than `limit` food dots, take the
    next random candidate dot and push it unless it lies on the snake or on
    an existing food dot. `draws` are the candidates the random source
    yields, in order; the model stops when they run out.
   */
  function GenerateFood(snake: seq<Cell>, food: seq<Cell>, limit: int, draws: seq<Cell>): (r: seq<Cell>)
    ensures food <= r
    ensures forall i :: |food| <= i < |r| ==> r[i] in draws && r[i] !in snake && r[i] !in r[..i]
    ensures |food| >= limit ==> r == food
    ensures |food| < limit ==> |r| <= limit
    ensures |r| < limit ==> forall d :: d in draws ==> d in snake || d in r
    decreases |draws|
  {
    if |food| >= limit || |draws| == 0 then food
    else
      var c := draws[0];
      if c !in snake && c !in food then
        var r := GenerateFood(snake, food + [c], limit, draws[1..]);
        assert r[..|food|] == food;
        r
      else
        GenerateFood(snake, food, limit, draws[1..])
  }

  /** Refilling keeps the food free of repeats, off the snake, and on board
      grid dots when every candidate is one. */
  lemma GenerateFoodKeepsFoodValid(b: Board, snake: seq<Cell>, food: seq<Cell>, limit: int, draws: seq<Cell>)
    requires Distinct(food)
    requires forall c :: c in food ==> c !in snake && InBounds(b, c) && Aligned(c)
    requires forall c :: c in draws ==> InBounds(b, c) && Aligned(c)
    ensures var r := GenerateFood(snake, food, limit, draws);
      Distinct(r) && forall c :: c in r ==> c !in snake && InBounds(b, c) && Aligned(c)
  {
    var r := GenerateFood(snake, food, limit, draws);
    forall i, j | 0 <= i < j < |r|
      ensures r[i] != r[j]
    {
      if j < |food| {
        assert r[i] == food[i] && r[j] == food[j];
      } else {
        assert r[i] in r[..j];
      }
    }
    forall c | c in r
      ensures c !in snake && InBounds(b, c) && Aligned(c)
    {
      var k :| 0 <= k < |r| && r[k] == c;
      if k < |food| { assert food[k] == c; }
    }
  }
}
