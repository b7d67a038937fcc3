/** Stepping through decimal teletext pages and searching the cached subpages of one, from lib/libtuxtxt/tuxtxt_common.h. */
module PageNumbers {
  import opened TeletextPackets

  /** A page number of magazine h with the digits t and u. */
  function Page(h: int, t: int, u: int): int { 256 * h + 16 * t + u }

  predicate DecimalPage(p: int) {
    0x100 <= p <= 0x899 && IsDec(p)
  }

  /** The place of a decimal page among the 800 of them. */
  function Index(p: int): int {
    (p / 256 - 1) * 100 + p / 16 % 16 * 10 + p % 16
  }

  lemma Digits(h: int, t: int, u: int)
    requires 0 <= t < 16 && 0 <= u < 16
    ensures Page(h, t, u) / 256 == h && Page(h, t, u) / 16 % 16 == t && Page(h, t, u) % 16 == u
  {
    assert Page(h, t, u) == 16 * (16 * h + t) + u;
    assert Page(h, t, u) / 16 == 16 * h + t;
    assert Page(h, t, u) / 256 == h by {
      assert Page(h, t, u) == 256 * h + (16 * t + u) && 0 <= 16 * t + u < 256;
    }
  }

  lemma DigitsOf(p: int) returns (h: int, t: int, u: int)
    requires DecimalPage(p)
    ensures p == Page(h, t, u) && 1 <= h <= 8 && 0 <= t <= 9 && 0 <= u <= 9
    ensures Index(p) == (h - 1) * 100 + t * 10 + u
  {
    h, t, u := p / 256, p / 16 % 16, p % 16;
    assert p / 16 == 16 * (p / 16 / 16) + t && p == 16 * (p / 16) + u;
    Digits(p / 16 / 16, t, u);
  }

  /** A page number that is its digits is decimal, and its place is their number. */
  lemma OfDigits(p: int, h: int, t: int, u: int)
    requires p == Page(h, t, u) && 1 <= h <= 8 && 0 <= t <= 9 && 0 <= u <= 9
    ensures DecimalPage(p) && Index(p) == (h - 1) * 100 + t * 10 + u
  {
    Digits(h, t, u);
  }

  /** Two decimal pages with the same place are the same page. */
  lemma PlacesDiffer(p: int, q: int)
    requires DecimalPage(p) && DecimalPage(q) && Index(p) == Index(q)
    ensures p == q
  {
    var h, t, u := DigitsOf(p);
    var h', t', u' := DigitsOf(q);
    hide Index, DecimalPage;
    assert h == h';
    assert t == t';
  }

  /** tuxtxt_next_dec: one page up, from the last to the first. */
  method NextDec(i: int) returns (r: int)
    requires DecimalPage(i)
    ensures DecimalPage(r) && Index(r) == if Index(i) == 799 then 0 else Index(i) + 1
  {
    ghost var h, t, u := DigitsOf(i);
    hide Index, DecimalPage;
    ghost var n := (h - 1) * 100 + t * 10 + u;
    r := i + 1;
    u := u + 1;
    Digits(h, t, u);
    if r % 16 > 9 {
      r := r + 6;
      t, u := t + 1, 0;
      Digits(h, t, u);
    }
    assert r == Page(h, t, u) && 0 <= t <= 10 && 0 <= u <= 9 && n + 1 == (h - 1) * 100 + t * 10 + u;
    if r / 16 % 16 > 9 {
      r := r + 0x60;
      h, t := h + 1, 0;
    }
    if r > 0x899 {
      r := 0x100;
      OfDigits(r, 1, 0, 0);
    } else {
      OfDigits(r, h, t, u);
    }
  }

  /** tuxtxt_prev_dec: one page down, from the first to the last. */
  method PrevDec(i: int) returns (r: int)
    requires DecimalPage(i)
    ensures DecimalPage(r) && Index(i) == if Index(r) == 799 then 0 else Index(r) + 1
  {
    ghost var h, t, u := DigitsOf(i);
    hide Index, DecimalPage;
    r := i - 1;
    if u == 0 {
      h, t, u := if t > 0 then h else h - 1, if t > 0 then t - 1 else 15, 15;
    } else {
      u := u - 1;
    }
    Digits(h, t, u);
    if r % 16 > 9 {
      r := r - 6;
      u := 9;
      Digits(h, t, u);
    }
    if r / 16 % 16 > 9 {
      r := r - 0x60;
      t := 9;
      Digits(h, t, u);
    }
    if r < 0x100 {
      r := 0x899;
      h := 8;
    }
    OfDigits(r, h, t, u);
  }

  // ----- the search for another cached subpage

  const LAST: int := 0x79
  const SUBPAGES: int := 0x7a

  function Wrap(loop: int): (w: int)
    ensures 0 <= w <= LAST
  {
    if loop < 0 then LAST else if loop > LAST then 0 else loop
  }

  /** How many turns of the loop come before subpage w is looked at. */
  function Turns(subpage: int, offset: int, w: int): int {
    var d := offset * (w - Wrap(subpage + offset));
    if d < 0 then d + SUBPAGES else d
  }

  /** What stops the search. */
  predicate Ends(cached: set<int>, subpage: int, offset: int) {
    subpage <= LAST || (offset == 1 && subpage == SUBPAGES) || exists c :: c in cached && 0 <= c <= LAST
  }

  /** The loop variable before turn n. */
  function Before(subpage: int, offset: int, n: nat): int {
    if n == 0 then subpage + offset else Wrap(Before(subpage, offset, n - 1)) + offset
  }

  /** Without anything to stop it the search looks at one subpage after the other for ever. */
  lemma Endless(cached: set<int>, subpage: int, offset: int, n: nat)
    requires (offset == 1 || offset == -1) && 0 <= subpage < 0x80 && !Ends(cached, subpage, offset)
    ensures Before(subpage, offset, n) != subpage
    ensures Wrap(Before(subpage, offset, n)) != subpage && Wrap(Before(subpage, offset, n)) !in cached
  {
  }

  /** The subpages looked at in the first n turns are neither the given one nor cached. */
  ghost predicate Passed(cached: set<int>, subpage: int, offset: int, n: int) {
    forall w :: 0 <= w <= LAST && Turns(subpage, offset, w) < n ==> w != subpage && w !in cached
  }

  lemma TurnsNext(subpage: int, offset: int, w: int)
    requires (offset == 1 || offset == -1) && 0 <= w <= LAST && Turns(subpage, offset, w) + 1 < SUBPAGES
    ensures Turns(subpage, offset, Wrap(w + offset)) == Turns(subpage, offset, w) + 1
  {
  }

  lemma TurnsDiffer(subpage: int, offset: int, w: int, v: int)
    requires (offset == 1 || offset == -1) && 0 <= w <= LAST && 0 <= v <= LAST && Turns(subpage, offset, w) == Turns(subpage, offset, v)
    ensures v == w && 0 <= Turns(subpage, offset, w) < SUBPAGES
  {
  }

  lemma PassedNext(cached: set<int>, subpage: int, offset: int, w: int)
    requires (offset == 1 || offset == -1) && 0 <= w <= LAST && w != subpage && w !in cached
    requires Passed(cached, subpage, offset, Turns(subpage, offset, w))
    ensures Passed(cached, subpage, offset, Turns(subpage, offset, w) + 1)
  {
    hide Turns;
    forall v | 0 <= v <= LAST && Turns(subpage, offset, v) == Turns(subpage, offset, w)
      ensures v == w
    {
      TurnsDiffer(subpage, offset, v, w);
    }
  }

  /** When all of them have been passed, only the loop's own test can have ended the search. */
  lemma AllPassed(cached: set<int>, subpage: int, offset: int)
    requires (offset == 1 || offset == -1) && 0 <= subpage < 0x80 && Ends(cached, subpage, offset)
    requires Passed(cached, subpage, offset, SUBPAGES)
    ensures offset == 1 && subpage == SUBPAGES
  {
    if subpage <= LAST {
      TurnsDiffer(subpage, offset, subpage, subpage);
    } else if c :| c in cached && 0 <= c <= LAST {
      TurnsDiffer(subpage, offset, c, c);
    }
  }

  /** The given subpage itself comes last. */
  lemma OwnTurn(subpage: int, offset: int)
    requires offset == 1 || offset == -1
    ensures 0 <= subpage <= LAST ==> Turns(subpage, offset, subpage) == LAST
    ensures offset == 1 && subpage == SUBPAGES ==> Turns(subpage, offset, LAST) == LAST && Turns(subpage, offset, 0) == 0
  {
  }

  predicate OnlyOne(cached: set<int>, subpage: int) {
    forall c :: c in cached && 0 <= c <= LAST ==> c == subpage
  }

  lemma NoOther(cached: set<int>, subpage: int, offset: int, n: int)
    requires (offset == 1 || offset == -1) && 0 <= subpage < 0x80 && Passed(cached, subpage, offset, n)
    requires (n == LAST && subpage <= LAST) || n == SUBPAGES
    ensures OnlyOne(cached, subpage)
  {
    hide Turns;
    OwnTurn(subpage, offset);
    forall c | c in cached && 0 <= c <= LAST
      ensures c == subpage
    {
      TurnsDiffer(subpage, offset, c, c);
      if Turns(subpage, offset, c) == LAST && subpage <= LAST {
        TurnsDiffer(subpage, offset, c, subpage);
      }
    }
  }

  /** tuxtxt_GetSubPage, where it returns: the first cached subpage met going round, or the given one if there is no other. */
  method GetSubPage(cached: set<int>, subpage: int, offset: int) returns (r: int)
    requires (offset == 1 || offset == -1) && 0 <= subpage < 0x80 && Ends(cached, subpage, offset)
    ensures r == subpage ==> OnlyOne(cached, subpage)
    ensures r != subpage ==> r in cached && 0 <= r <= LAST && Passed(cached, subpage, offset, Turns(subpage, offset, r))
  {
    StartTurn(subpage, offset);
    OwnTurn(subpage, offset);
    hide Turns, Passed, OnlyOne, Ends;
    var loop := subpage + offset;
    ghost var n := 0;
    NonePassed(cached, subpage, offset);
    while loop != subpage
      invariant 0 <= n <= SUBPAGES && Passed(cached, subpage, offset, n)
      invariant n == 0 ==> loop == subpage + offset
      invariant n > 0 ==> -1 <= loop <= LAST || (loop == SUBPAGES && offset == 1)
      invariant n < SUBPAGES ==> Turns(subpage, offset, Wrap(loop)) == n
      invariant n == SUBPAGES ==> loop == subpage
      decreases SUBPAGES - n
    {
      loop := Wrap(loop);
      if loop == subpage {
        NoOther(cached, subpage, offset, n);
        return subpage;
      }
      if loop in cached {
        return loop;
      }
      PassedNext(cached, subpage, offset, loop);
      if n + 1 < SUBPAGES {
        TurnsNext(subpage, offset, loop);
      } else {
        AllPassed(cached, subpage, offset);
        TurnsDiffer(subpage, offset, loop, LAST);
      }
      loop := loop + offset;
      n := n + 1;
    }
    if n < SUBPAGES && subpage > LAST {
      assert false;
    }
    NoOther(cached, subpage, offset, n);
    r := subpage;
  }

  lemma StartTurn(subpage: int, offset: int)
    requires offset == 1 || offset == -1
    ensures Turns(subpage, offset, Wrap(subpage + offset)) == 0
  {
  }

  lemma NonePassed(cached: set<int>, subpage: int, offset: int)
    requires offset == 1 || offset == -1
    ensures Passed(cached, subpage, offset, 0)
  {
    forall w | 0 <= w <= LAST && Turns(subpage, offset, w) < 0
      ensures false
    {
      TurnsDiffer(subpage, offset, w, w);
    }
  }
}
