/** The search for the width assignments a rule admits: an odometer over index vectors, each
    expanded by every choice of rounding modes. */
module Enumeration {
  import opened Nats

  /** The number of rounding modes. */
  const MODES: nat := 5

  /** What the search needs of a rule: its numbers of width and of mode variables, and which
      assignments it admits. */
  datatype Rule = Rule(widthVars: nat, modeVars: nat, admits: seq<nat> -> bool)

  // ----- rounding modes -----

  /** One vector followed by each mode. */
  function WithEach(v: seq<nat>): seq<seq<nat>> { seq(MODES, m => v + [m]) }

  function ExtendAll(vs: seq<seq<nat>>): seq<seq<nat>>
  {
    if |vs| == 0 then [] else WithEach(vs[0]) + ExtendAll(vs[1..])
  }

  function Expand(ws: seq<nat>, modes: nat): seq<seq<nat>>
  {
    if modes == 0 then [ws] else ExtendAll(Expand(ws, modes - 1))
  }

  method WithModes(rule: Rule, ws: seq<nat>) returns (out: seq<seq<nat>>)
    ensures out == Expand(ws, rule.modeVars)
  {
    out := [ws];
    for i := 0 to rule.modeVars
      invariant out == Expand(ws, i)
    {
      out := ExtendAll(out);
    }
  }

  /** `v` is `ws` followed by one mode for each mode variable. */
  predicate Expands(ws: seq<nat>, modes: nat, v: seq<nat>)
  {
    |v| == |ws| + modes && v[..|ws|] == ws && forall i :: |ws| <= i < |v| ==> v[i] < MODES
  }

  lemma WithEachMembers(v: seq<nat>, u: seq<nat>)
    ensures u in WithEach(v) <==> |u| == |v| + 1 && u[..|v|] == v && u[|v|] < MODES
  {
    if |u| == |v| + 1 && u[..|v|] == v && u[|v|] < MODES {
      assert u == v + [u[|v|]] == WithEach(v)[u[|v|]];
    }
  }

  lemma {:induction false} ExtendAllMembers(vs: seq<seq<nat>>, u: seq<nat>)
    ensures u in ExtendAll(vs) <==> |u| > 0 && u[..|u| - 1] in vs && u[|u| - 1] < MODES
  {
    if |vs| > 0 {
      WithEachMembers(vs[0], u);
      ExtendAllMembers(vs[1..], u);
      assert vs == [vs[0]] + vs[1..];
    }
  }

  /** The expansions of a tuple are exactly its continuations by modes. */
  lemma {:induction false} ExpandMembers(ws: seq<nat>, modes: nat, u: seq<nat>)
    ensures u in Expand(ws, modes) <==> Expands(ws, modes, u)
  {
    if modes == 0 {
      NothingAdded(ws, u);
    } else {
      ExtendAllMembers(Expand(ws, modes - 1), u);
      if |u| > 0 { ExpandMembers(ws, modes - 1, u[..|u| - 1]); }
      ExpandsSnoc(ws, modes, u);
    }
  }

  lemma NothingAdded(ws: seq<nat>, u: seq<nat>)
    ensures Expands(ws, 0, u) <==> u == ws
  {
    if |u| == |ws| { assert u == u[..|ws|]; }
  }

  lemma ExpandsSnoc(ws: seq<nat>, modes: nat, u: seq<nat>)
    requires modes > 0
    ensures Expands(ws, modes, u) <==>
      |u| > 0 && Expands(ws, modes - 1, u[..|u| - 1]) && u[|u| - 1] < MODES
  {
    if |u| > |ws| {
      var f := u[..|u| - 1];
      assert f[..|ws|] == u[..|ws|];
      if Expands(ws, modes - 1, f) && u[|u| - 1] < MODES {
        forall i | |ws| <= i < |u| ensures u[i] < MODES { if i < |f| { assert f[i] < MODES; } }
      }
    }
  }

  /** A tuple of modes read as a number, the last mode least significant. */
  function ModeNumber(v: seq<nat>): nat
  {
    if |v| == 0 then 0 else v[|v| - 1] + MODES * ModeNumber(v[..|v| - 1])
  }

  lemma {:induction false} ExtendAllAt(vs: seq<seq<nat>>, j: nat)
    requires j < MODES * |vs|
    ensures |ExtendAll(vs)| == MODES * |vs| && ExtendAll(vs)[j] == vs[j / MODES] + [j % MODES]
  {
    if j >= MODES {
      ExtendAllAt(vs[1..], j - MODES);
    } else if |vs| > 1 {
      ExtendAllAt(vs[1..], 0);
    }
  }

  /** The expansions are in increasing order of their mode numbers, and each number occurs once. */
  lemma {:induction false} ExpandAt(ws: seq<nat>, modes: nat, j: nat)
    requires j < Power(MODES, modes)
    ensures |Expand(ws, modes)| == Power(MODES, modes)
    ensures Expands(ws, modes, Expand(ws, modes)[j])
    ensures ModeNumber(Expand(ws, modes)[j][|ws|..]) == j
  {
    if modes == 0 {
      NothingAdded(ws, ws);
    } else {
      var vs := Expand(ws, modes - 1);
      MultIs(MODES, Power(MODES, modes - 1));
      ExpandAt(ws, modes - 1, j / MODES);
      ExtendAllAt(vs, j);
      var u, f := Expand(ws, modes)[j], vs[j / MODES];
      assert u[..|u| - 1] == f && u[|ws|..][..modes - 1] == f[|ws|..];
      ExpandsSnoc(ws, modes, u);
    }
  }

  // ----- index vectors as numbers -----

  function Power(d: nat, n: nat): nat { if n == 0 then 1 else Mult(d, Power(d, n - 1)) }

  /** Digits below `d`. */
  predicate Digits(idx: seq<nat>, d: nat) { forall k :: 0 <= k < |idx| ==> idx[k] < d }

  /** The vector read as a number in base `d`, the first digit least significant. */
  function Value(idx: seq<nat>, d: nat): nat
  {
    if |idx| == 0 then 0 else idx[0] + Mult(d, Value(idx[1..], d))
  }

  /** The `n` digits of `c`. */
  function VectorAt(n: nat, d: nat, c: nat): (v: seq<nat>)
    requires d > 0 || n == 0
    ensures |v| == n
  {
    if n == 0 then [] else [Rem(c, d)] + VectorAt(n - 1, d, Quot(c, d))
  }

  lemma {:induction false} DigitStep(i: nat, d: nat, v: nat)
    requires i < d
    ensures Rem(i + Mult(d, v), d) == i && Quot(i + Mult(d, v), d) == v
    decreases v
  {
    if v > 0 { DigitStep(i, d, v - 1); }
  }

  lemma {:induction false} VectorOfValue(idx: seq<nat>, d: nat)
    requires Digits(idx, d) && (d > 0 || |idx| == 0)
    ensures VectorAt(|idx|, d, Value(idx, d)) == idx
  {
    if |idx| > 0 {
      DigitStep(idx[0], d, Value(idx[1..], d));
      VectorOfValue(idx[1..], d);
    }
  }

  /** Every number below `d^n` is the value of its digits, so vectors and numbers correspond. */
  lemma {:induction false} ValueOfVector(n: nat, d: nat, c: nat)
    requires (d > 0 || n == 0) && c < Power(d, n)
    ensures Digits(VectorAt(n, d, c), d) && Value(VectorAt(n, d, c), d) == c
  {
    if n > 0 {
      DigitsAre(c, d);
      QuotBelow(c, d, Power(d, n - 1));
      ValueOfVector(n - 1, d, Quot(c, d));
      assert VectorAt(n, d, c)[1..] == VectorAt(n - 1, d, Quot(c, d));
    }
  }

  lemma {:induction false} QuotBelow(c: nat, d: nat, p: nat)
    requires d > 0 && c < Mult(d, p)
    ensures Quot(c, d) < p
    decreases c
  {
    if c >= d { QuotBelow(c - d, d, p - 1); }
  }

  lemma {:induction false} DigitsAre(c: nat, d: nat)
    requires d > 0
    ensures c == Rem(c, d) + Mult(d, Quot(c, d)) && Rem(c, d) < d
    decreases c
  {
    if c >= d { DigitsAre(c - d, d); }
  }

  // ----- the odometer -----

  /** All digits at their largest. */
  lemma {:induction false} LargestValue(idx: seq<nat>, d: nat)
    requires d > 0 && forall k :: 0 <= k < |idx| ==> idx[k] == d - 1
    ensures Value(idx, d) == Power(d, |idx|) - 1
  {
    if |idx| > 0 {
      LargestValue(idx[1..], d);
      assert Mult(d, Power(d, |idx| - 1)) == d + Mult(d, Power(d, |idx| - 1) - 1);
    }
  }

  /** Clearing a run of largest digits and raising the next one adds one. */
  lemma {:induction false} CarryValue(was: seq<nat>, idx: seq<nat>, d: nat, k: nat)
    requires d > 0 && |was| == |idx| && k < |was|
    requires forall j :: 0 <= j < k ==> was[j] == d - 1 && idx[j] == 0
    requires idx[k] == was[k] + 1 && was[k + 1..] == idx[k + 1..]
    ensures Value(idx, d) == Value(was, d) + 1
  {
    if k > 0 {
      assert was[1..][k..] == was[k + 1..] && idx[1..][k..] == idx[k + 1..];
      CarryValue(was[1..], idx[1..], d, k - 1);
    }
  }

  /** One step of the odometer; false when every digit was at its largest. */
  method Advance(idx: array<nat>, d: nat) returns (more: bool)
    requires d > 0 && Digits(idx[..], d)
    modifies idx
    ensures more ==> Digits(idx[..], d) && Value(idx[..], d) == Value(old(idx[..]), d) + 1
    ensures !more ==> Value(old(idx[..]), d) == Power(d, idx.Length) - 1
  {
    var k := 0;
    ghost var was := idx[..];
    while true
      invariant k <= idx.Length
      invariant forall j :: 0 <= j < k ==> was[j] == d - 1 && idx[j] == 0
      invariant idx[k..] == was[k..]
      decreases idx.Length - k
    {
      if k == idx.Length {
        LargestValue(was, d);
        return false;
      }
      assert idx[k] == was[k];
      assert idx[k + 1..] == idx[k..][1..] && was[k + 1..] == was[k..][1..];
      idx[k] := idx[k] + 1;
      if idx[k] < d {
        CarryValue(was, idx[..], d, k);
        assert forall j :: k < j < idx.Length ==> idx[j] == was[k + 1..][j - k - 1];
        return true;
      }
      idx[k] := 0;
      k := k + 1;
    }
  }

  // ----- the search -----

  function Select(admits: seq<nat> -> bool, vs: seq<seq<nat>>): seq<seq<nat>>
  {
    if |vs| == 0 then []
    else (if admits(vs[0]) then [vs[0]] else []) + Select(admits, vs[1..])
  }

  lemma {:induction false} SelectMembers(admits: seq<nat> -> bool, vs: seq<seq<nat>>, u: seq<nat>)
    ensures u in Select(admits, vs) <==> u in vs && admits(u)
  {
    if |vs| > 0 {
      SelectMembers(admits, vs[1..], u);
      assert vs == [vs[0]] + vs[1..];
    }
  }

  function Widths(domain: seq<nat>, idx: seq<nat>): (ws: seq<nat>)
    requires Digits(idx, |domain|)
    ensures |ws| == |idx|
  {
    seq(|idx|, k requires 0 <= k < |idx| => domain[idx[k]])
  }

  /** The rule has width variables only over a nonempty domain. */
  predicate Searchable(rule: Rule, domain: seq<nat>) { rule.widthVars == 0 || |domain| > 0 }

  function Total(rule: Rule, domain: seq<nat>): nat { Power(|domain|, rule.widthVars) }

  /** The admitted expansions of the width tuple number `c`. */
  function AdmittedAt(rule: Rule, domain: seq<nat>, c: nat): seq<seq<nat>>
    requires Searchable(rule, domain) && c < Total(rule, domain)
  {
    ValueOfVector(rule.widthVars, |domain|, c);
    Select(rule.admits, Expand(Widths(domain, VectorAt(rule.widthVars, |domain|, c)), rule.modeVars))
  }

  /** The admitted expansions of the tuples numbered from `lo` to below `hi`, in order. */
  function AdmittedIn(rule: Rule, domain: seq<nat>, lo: nat, hi: nat): seq<seq<nat>>
    requires Searchable(rule, domain) && lo <= hi <= Total(rule, domain)
    decreases hi - lo
  {
    if lo == hi then [] else AdmittedAt(rule, domain, lo) + AdmittedIn(rule, domain, lo + 1, hi)
  }

  /** How many of those tuples have an admitted expansion. */
  function Productive(rule: Rule, domain: seq<nat>, lo: nat, hi: nat): nat
    requires Searchable(rule, domain) && lo <= hi <= Total(rule, domain)
    decreases hi - lo
  {
    if lo == hi then 0
    else (if AdmittedAt(rule, domain, lo) != [] then 1 else 0) + Productive(rule, domain, lo + 1, hi)
  }

  /** It is the number of tuples in the range that `hits` marks, when it marks those with an admitted
      expansion. */
  lemma {:induction false} ProductiveCounts(rule: Rule, domain: seq<nat>, hits: seq<bool>, lo: nat, hi: nat)
    requires Searchable(rule, domain) && lo <= hi <= Total(rule, domain) == |hits|
    requires forall c :: 0 <= c < |hits| ==> (hits[c] <==> AdmittedAt(rule, domain, c) != [])
    ensures Productive(rule, domain, lo, hi) == |Marked(hits, lo, hi)|
    decreases hi - lo
  {
    if lo == hi {
      assert Marked(hits, lo, hi) == {};
    } else {
      ProductiveCounts(rule, domain, hits, lo + 1, hi);
      MarkedFirst(hits, lo, hi);
      assert hits[lo] <==> AdmittedAt(rule, domain, lo) != [];
    }
  }

  function Marked(hits: seq<bool>, lo: nat, hi: nat): set<nat>
  {
    set c | lo <= c < hi && c < |hits| && hits[c]
  }

  lemma MarkedFirst(hits: seq<bool>, lo: nat, hi: nat)
    requires lo < hi <= |hits|
    ensures |Marked(hits, lo, hi)| == |Marked(hits, lo + 1, hi)| + if hits[lo] then 1 else 0
  {
    assert Marked(hits, lo, hi) == Marked(hits, lo + 1, hi) + if hits[lo] then {lo} else {};
  }

  lemma {:induction false} AdmittedSnoc(rule: Rule, domain: seq<nat>, lo: nat, hi: nat)
    requires Searchable(rule, domain) && lo <= hi < Total(rule, domain)
    ensures AdmittedIn(rule, domain, lo, hi + 1) == AdmittedIn(rule, domain, lo, hi) + AdmittedAt(rule, domain, hi)
    ensures Productive(rule, domain, lo, hi + 1) ==
      Productive(rule, domain, lo, hi) + if AdmittedAt(rule, domain, hi) != [] then 1 else 0
    decreases hi - lo
  {
    if lo < hi {
      AdmittedSnoc(rule, domain, lo + 1, hi);
      ConcatAssoc(AdmittedAt(rule, domain, lo), AdmittedIn(rule, domain, lo + 1, hi), AdmittedAt(rule, domain, hi));
    } else {
      assert AdmittedIn(rule, domain, hi + 1, hi + 1) == [] && AdmittedIn(rule, domain, lo, hi) == [];
    }
  }

  lemma ConcatAssoc<A>(a: seq<A>, b: seq<A>, c: seq<A>)
    ensures a + b + c == a + (b + c)
  {
  }

  /** The search stopped after the tuples numbered below `limit`: those hold the first `cap` tuples
      with an admitted expansion, or all there are. */
  predicate StopsAt(rule: Rule, domain: seq<nat>, cap: nat, limit: nat)
    requires Searchable(rule, domain)
  {
    && limit <= Total(rule, domain)
    && Productive(rule, domain, 0, limit) <= cap
    && (limit < Total(rule, domain) ==> Productive(rule, domain, 0, limit) == cap)
  }

  /** The admitted expansions of one tuple. */
  method AdmittedWith(rule: Rule, domain: seq<nat>, idx: seq<nat>) returns (admitted: seq<seq<nat>>)
    requires Searchable(rule, domain) && |idx| == rule.widthVars && Digits(idx, |domain|)
    ensures Value(idx, |domain|) < Total(rule, domain)
    ensures admitted == AdmittedAt(rule, domain, Value(idx, |domain|))
  {
    ValueBelow(idx, |domain|);
    VectorOfValue(idx, |domain|);
    var expanded := WithModes(rule, Widths(domain, idx));
    admitted := Select(rule.admits, expanded);
  }

  /** Returns the admitted expansions of the first `cap` tuples that have one, in counting order; a
      cap of zero acts as one. */
  method AdmittedOver(rule: Rule, domain: seq<nat>, cap: nat) returns (out: seq<seq<nat>>)
    requires Searchable(rule, domain)
    ensures exists limit: nat :: StopsAt(rule, domain, Max(cap, 1), limit) && out == AdmittedIn(rule, domain, 0, limit)
  {
    var n, d := rule.widthVars, |domain|;
    out := [];
    var found := 0;
    var idx := new nat[n](i => 0);
    ghost var c := 0;
    ZeroValue(idx[..], d);
    while true
      invariant Digits(idx[..], d) && Value(idx[..], d) == c < Total(rule, domain)
      invariant out == AdmittedIn(rule, domain, 0, c)
      invariant found == Productive(rule, domain, 0, c) < Max(cap, 1)
      decreases Total(rule, domain) - c
    {
      var admitted := AdmittedWith(rule, domain, idx[..]);
      AdmittedSnoc(rule, domain, 0, c);
      if admitted != [] {
        out := out + admitted;
        found := found + 1;
        if found >= cap {
          assert StopsAt(rule, domain, Max(cap, 1), c + 1);
          return;
        }
      }
      if n == 0 {
        assert StopsAt(rule, domain, Max(cap, 1), c + 1);
        return;
      }
      var more := Advance(idx, d);
      c := c + 1;
      if !more {
        assert StopsAt(rule, domain, Max(cap, 1), c);
        return;
      }
      ValueBelow(idx[..], d);
    }
  }

  lemma {:induction false} ZeroValue(idx: seq<nat>, d: nat)
    requires forall k :: 0 <= k < |idx| ==> idx[k] == 0
    requires d > 0 || |idx| == 0
    ensures Digits(idx, d) && Value(idx, d) == 0 < Power(d, |idx|)
  {
    if |idx| > 0 {
      ZeroValue(idx[1..], d);
      MultOrder(d, 0, Power(d, |idx| - 1));
    }
  }

  lemma {:induction false} ValueBelow(idx: seq<nat>, d: nat)
    requires Digits(idx, d)
    ensures Value(idx, d) < Power(d, |idx|)
  {
    if |idx| > 0 {
      ValueBelow(idx[1..], d);
      MultOrder(d, Value(idx[1..], d), Power(d, |idx| - 1));
    }
  }

  // ----- what the search returns -----

  /** An assignment over the domain: a width of it for each width variable, then a mode for each mode
      variable. */
  predicate Assignment(rule: Rule, domain: seq<nat>, u: seq<nat>)
  {
    && |u| == rule.widthVars + rule.modeVars
    && (forall k :: 0 <= k < rule.widthVars ==> u[k] in domain)
    && forall k :: rule.widthVars <= k < |u| ==> u[k] < MODES
  }

  /** The assignment whose widths stand at the positions `idx` of the domain. */
  predicate Candidate(rule: Rule, domain: seq<nat>, idx: seq<nat>, u: seq<nat>)
  {
    && |idx| == rule.widthVars && Digits(idx, |domain|)
    && |u| == rule.widthVars + rule.modeVars
    && (forall k :: 0 <= k < rule.widthVars ==> u[k] == domain[idx[k]])
    && forall k :: rule.widthVars <= k < |u| ==> u[k] < MODES
  }

  lemma CandidateExpands(rule: Rule, domain: seq<nat>, idx: seq<nat>, u: seq<nat>)
    requires |idx| == rule.widthVars && Digits(idx, |domain|)
    ensures Candidate(rule, domain, idx, u) <==> Expands(Widths(domain, idx), rule.modeVars, u)
  {
    var ws := Widths(domain, idx);
    if Candidate(rule, domain, idx, u) { assert u[..|ws|] == ws; }
    if Expands(ws, rule.modeVars, u) {
      forall k | 0 <= k < |ws| ensures u[k] == domain[idx[k]] { assert u[..|ws|][k] == ws[k]; }
    }
  }

  /** Positions in the domain for the widths of an assignment. */
  lemma {:induction false} PositionsOf(domain: seq<nat>, ws: seq<nat>) returns (idx: seq<nat>)
    requires forall k :: 0 <= k < |ws| ==> ws[k] in domain
    ensures |idx| == |ws| && Digits(idx, |domain|) && forall k :: 0 <= k < |ws| ==> domain[idx[k]] == ws[k]
  {
    idx := [];
    if |ws| > 0 {
      var rest := PositionsOf(domain, ws[1..]);
      assert ws[0] in domain;
      var i :| 0 <= i < |domain| && domain[i] == ws[0];
      idx := [i] + rest;
      forall k | 0 <= k < |ws| ensures idx[k] < |domain| && domain[idx[k]] == ws[k] {
        if k > 0 { assert idx[k] == rest[k - 1] && ws[k] == ws[1..][k - 1]; }
      }
    }
  }

  lemma AdmittedAtMembers(rule: Rule, domain: seq<nat>, c: nat, idx: seq<nat>, u: seq<nat>)
    requires Searchable(rule, domain) && c < Total(rule, domain)
    requires idx == VectorAt(rule.widthVars, |domain|, c)
    ensures Digits(idx, |domain|)
    ensures u in AdmittedAt(rule, domain, c) <==> Candidate(rule, domain, idx, u) && rule.admits(u)
  {
    ValueOfVector(rule.widthVars, |domain|, c);
    var ws := Widths(domain, idx);
    SelectMembers(rule.admits, Expand(ws, rule.modeVars), u);
    ExpandMembers(ws, rule.modeVars, u);
    CandidateExpands(rule, domain, idx, u);
  }

  lemma InConcat(a: seq<seq<nat>>, b: seq<seq<nat>>, u: seq<nat>)
    ensures u in a + b <==> u in a || u in b
  {
  }

  lemma {:induction false} AdmittedInFrom(rule: Rule, domain: seq<nat>, lo: nat, hi: nat, u: seq<nat>) returns (c: nat)
    requires Searchable(rule, domain) && lo <= hi <= Total(rule, domain)
    requires u in AdmittedIn(rule, domain, lo, hi)
    ensures lo <= c < hi && u in AdmittedAt(rule, domain, c)
    decreases hi - lo
  {
    InConcat(AdmittedAt(rule, domain, lo), AdmittedIn(rule, domain, lo + 1, hi), u);
    if u in AdmittedAt(rule, domain, lo) { c := lo; } else { c := AdmittedInFrom(rule, domain, lo + 1, hi, u); }
  }

  lemma {:induction false} AdmittedInHas(rule: Rule, domain: seq<nat>, lo: nat, hi: nat, c: nat, u: seq<nat>)
    requires Searchable(rule, domain) && lo <= c < hi <= Total(rule, domain)
    requires u in AdmittedAt(rule, domain, c)
    ensures u in AdmittedIn(rule, domain, lo, hi)
    decreases hi - lo
  {
    if lo < c { AdmittedInHas(rule, domain, lo + 1, hi, c, u); }
    InConcat(AdmittedAt(rule, domain, lo), AdmittedIn(rule, domain, lo + 1, hi), u);
  }

  /** Whatever the search returns is an admitted assignment over the domain. */
  lemma SearchSound(rule: Rule, domain: seq<nat>, limit: nat, u: seq<nat>)
    requires Searchable(rule, domain) && limit <= Total(rule, domain)
    requires u in AdmittedIn(rule, domain, 0, limit)
    ensures Assignment(rule, domain, u) && rule.admits(u)
  {
    var c := AdmittedInFrom(rule, domain, 0, limit, u);
    AdmittedAtMembers(rule, domain, c, VectorAt(rule.widthVars, |domain|, c), u);
  }

  /** When at most `cap` tuples have an admitted expansion, the search misses no admitted
      assignment over the domain. */
  lemma SearchComplete(rule: Rule, domain: seq<nat>, cap: nat, limit: nat, u: seq<nat>)
    requires Searchable(rule, domain) && StopsAt(rule, domain, cap, limit)
    requires Productive(rule, domain, 0, Total(rule, domain)) <= cap
    requires Assignment(rule, domain, u) && rule.admits(u)
    ensures u in AdmittedIn(rule, domain, 0, limit)
  {
    var idx := PositionsOf(domain, u[..rule.widthVars]);
    var c := Value(idx, |domain|);
    VectorOfValue(idx, |domain|);
    ValueBelow(idx, |domain|);
    AdmittedAtMembers(rule, domain, c, idx, u);
    if c >= limit { NoneLeft(rule, domain, cap, limit, c); }
    AdmittedInHas(rule, domain, 0, limit, c, u);
  }

  /** Nothing with an admitted expansion lies beyond the stop. */
  lemma NoneLeft(rule: Rule, domain: seq<nat>, cap: nat, limit: nat, c: nat)
    requires Searchable(rule, domain) && StopsAt(rule, domain, cap, limit)
    requires Productive(rule, domain, 0, Total(rule, domain)) <= cap
    requires limit <= c < Total(rule, domain)
    ensures AdmittedAt(rule, domain, c) == []
  {
    ProductiveMonotone(rule, domain, limit, c);
    AdmittedSnoc(rule, domain, 0, c);
    ProductiveMonotone(rule, domain, c + 1, Total(rule, domain));
  }

  lemma {:induction false} ProductiveMonotone(rule: Rule, domain: seq<nat>, lo: nat, hi: nat)
    requires Searchable(rule, domain) && lo <= hi <= Total(rule, domain)
    ensures Productive(rule, domain, 0, lo) <= Productive(rule, domain, 0, hi)
    decreases hi - lo
  {
    if lo < hi {
      AdmittedSnoc(rule, domain, 0, lo);
      ProductiveMonotone(rule, domain, lo + 1, hi);
    }
  }

  // ----- the order of what it returns -----

  /** Where an assignment comes in the enumeration: the number of its width tuple, then that of its
      modes. */
  datatype Place = Place(tuple: nat, modes: nat)

  predicate Before(p: Place, q: Place) { p.tuple < q.tuple || (p.tuple == q.tuple && p.modes < q.modes) }

  predicate Placed(rule: Rule, domain: seq<nat>, u: seq<nat>, p: Place)
    requires Searchable(rule, domain)
  {
    && Candidate(rule, domain, VectorAt(rule.widthVars, |domain|, p.tuple), u)
    && ModeNumber(u[rule.widthVars..]) == p.modes
  }

  predicate Rising(ps: seq<Place>) { forall i, j :: 0 <= i < j < |ps| ==> Before(ps[i], ps[j]) }

  /** Every listed assignment is admitted and has its place in the range... */
  predicate AllPlaced(rule: Rule, domain: seq<nat>, lo: nat, hi: nat, out: seq<seq<nat>>, ps: seq<Place>)
    requires Searchable(rule, domain)
  {
    && |ps| == |out|
    && forall i :: 0 <= i < |ps| ==>
         lo <= ps[i].tuple < hi && Placed(rule, domain, out[i], ps[i]) && rule.admits(out[i])
  }

  /** ... and every admitted assignment placed in the range is listed. */
  ghost predicate NoneMissed(rule: Rule, domain: seq<nat>, lo: nat, hi: nat, ps: seq<Place>)
    requires Searchable(rule, domain)
  {
    forall u: seq<nat>, p: Place ::
      Placed(rule, domain, u, p) && lo <= p.tuple < hi && rule.admits(u) ==> p in ps
  }

  predicate Increasing(js: seq<nat>) { forall i, k :: 0 <= i < k < |js| ==> js[i] < js[k] }

  /** From position `k` on the filter keeps the elements at the positions `js`. */
  predicate KeptAt(admits: seq<nat> -> bool, vs: seq<seq<nat>>, k: nat, js: seq<nat>)
    requires k <= |vs|
  {
    && |js| == |Select(admits, vs[k..])|
    && forall i :: 0 <= i < |js| ==>
         k <= js[i] < |vs| && Select(admits, vs[k..])[i] == vs[js[i]] && admits(vs[js[i]])
  }

  predicate KeepsAll(admits: seq<nat> -> bool, vs: seq<seq<nat>>, k: nat, js: seq<nat>)
  {
    forall j :: k <= j < |vs| && admits(vs[j]) ==> j in js
  }

  /** They increase, and are all those of admitted elements. */
  lemma {:induction false} SelectPositions(admits: seq<nat> -> bool, vs: seq<seq<nat>>, k: nat) returns (js: seq<nat>)
    requires k <= |vs|
    ensures KeptAt(admits, vs, k, js) && Increasing(js) && KeepsAll(admits, vs, k, js)
    decreases |vs| - k
  {
    js := [];
    if k < |vs| {
      js := SelectPositions(admits, vs, k + 1);
      if admits(vs[k]) {
        KeptFirst(admits, vs, k, js);
        js := [k] + js;
      } else {
        DroppedFirst(admits, vs, k, js);
      }
    }
  }

  lemma KeptFirst(admits: seq<nat> -> bool, vs: seq<seq<nat>>, k: nat, js: seq<nat>)
    requires k < |vs| && admits(vs[k])
    requires KeptAt(admits, vs, k + 1, js) && Increasing(js) && KeepsAll(admits, vs, k + 1, js)
    ensures KeptAt(admits, vs, k, [k] + js) && Increasing([k] + js) && KeepsAll(admits, vs, k, [k] + js)
  {
    var r, kept := [k] + js, Select(admits, vs[k..]);
    assert vs[k..][1..] == vs[k + 1..];
    assert kept == [vs[k]] + Select(admits, vs[k + 1..]);
    forall i | 0 <= i < |r| ensures k <= r[i] < |vs| && kept[i] == vs[r[i]] && admits(vs[r[i]]) {
      if i > 0 { assert r[i] == js[i - 1]; }
    }
    forall i, j | 0 <= i < j < |r| ensures r[i] < r[j] {
      assert r[j] == js[j - 1];
      if i > 0 { assert r[i] == js[i - 1]; }
    }
    forall j | k <= j < |vs| && admits(vs[j]) ensures j in r { if j > k { assert j in js; } }
  }

  lemma DroppedFirst(admits: seq<nat> -> bool, vs: seq<seq<nat>>, k: nat, js: seq<nat>)
    requires k < |vs| && !admits(vs[k])
    requires KeptAt(admits, vs, k + 1, js) && KeepsAll(admits, vs, k + 1, js)
    ensures KeptAt(admits, vs, k, js) && KeepsAll(admits, vs, k, js)
  {
    assert vs[k..][1..] == vs[k + 1..];
    assert Select(admits, vs[k..]) == Select(admits, vs[k + 1..]);
  }

  function PlacesAt(c: nat, js: seq<nat>): (ps: seq<Place>)
    ensures |ps| == |js|
  {
    seq(|js|, i requires 0 <= i < |js| => Place(c, js[i]))
  }

  /** One tuple's expansions. */
  lemma ListedAt(rule: Rule, domain: seq<nat>, c: nat) returns (ps: seq<Place>)
    requires Searchable(rule, domain) && c < Total(rule, domain)
    ensures Rising(ps) && AllPlaced(rule, domain, c, c + 1, AdmittedAt(rule, domain, c), ps)
    ensures NoneMissed(rule, domain, c, c + 1, ps)
  {
    ValueOfVector(rule.widthVars, |domain|, c);
    var vs := Expand(Widths(domain, VectorAt(rule.widthVars, |domain|, c)), rule.modeVars);
    var js := SelectPositions(rule.admits, vs, 0);
    assert vs[0..] == vs;
    ps := PlacesAt(c, js);
    forall i | 0 <= i < |ps| ensures Placed(rule, domain, vs[js[i]], ps[i]) { PlacedAt(rule, domain, c, vs, js[i]); }
    NoneMissedAt(rule, domain, c, vs, js);
  }

  lemma NoneMissedAt(rule: Rule, domain: seq<nat>, c: nat, vs: seq<seq<nat>>, js: seq<nat>)
    requires Searchable(rule, domain) && c < Total(rule, domain)
    requires Digits(VectorAt(rule.widthVars, |domain|, c), |domain|)
    requires vs == Expand(Widths(domain, VectorAt(rule.widthVars, |domain|, c)), rule.modeVars)
    requires KeepsAll(rule.admits, vs, 0, js)
    ensures NoneMissed(rule, domain, c, c + 1, PlacesAt(c, js))
  {
    forall u: seq<nat>, p: Place | Placed(rule, domain, u, p) && c <= p.tuple < c + 1 && rule.admits(u)
      ensures p in PlacesAt(c, js)
    {
      PlacedOnly(rule, domain, c, u, p.modes);
      var i :| 0 <= i < |js| && js[i] == p.modes;
      assert PlacesAt(c, js)[i] == p;
    }
  }

  lemma PlacedAt(rule: Rule, domain: seq<nat>, c: nat, vs: seq<seq<nat>>, j: nat)
    requires Searchable(rule, domain) && c < Total(rule, domain)
    requires Digits(VectorAt(rule.widthVars, |domain|, c), |domain|)
    requires vs == Expand(Widths(domain, VectorAt(rule.widthVars, |domain|, c)), rule.modeVars) && j < |vs|
    ensures Placed(rule, domain, vs[j], Place(c, j))
  {
    var idx := VectorAt(rule.widthVars, |domain|, c);
    var ws := Widths(domain, idx);
    PowerPositive(rule.modeVars);
    ExpandAt(ws, rule.modeVars, 0);
    ExpandAt(ws, rule.modeVars, j);
    CandidateExpands(rule, domain, idx, Expand(ws, rule.modeVars)[j]);
  }

  lemma {:induction false} PowerPositive(n: nat)
    ensures Power(MODES, n) > 0
  {
    if n > 0 {
      PowerPositive(n - 1);
      MultIs(MODES, Power(MODES, n - 1));
    }
  }

  /** An assignment at a place is the expansion listed there. */
  lemma PlacedOnly(rule: Rule, domain: seq<nat>, c: nat, u: seq<nat>, j: nat)
    requires Searchable(rule, domain) && c < Total(rule, domain) && Placed(rule, domain, u, Place(c, j))
    ensures var vs := Expand(Widths(domain, VectorAt(rule.widthVars, |domain|, c)), rule.modeVars);
      j < |vs| && vs[j] == u
  {
    var idx := VectorAt(rule.widthVars, |domain|, c);
    var ws := Widths(domain, idx);
    CandidateExpands(rule, domain, idx, u);
    ExpandMembers(ws, rule.modeVars, u);
    var vs := Expand(ws, rule.modeVars);
    var k :| 0 <= k < |vs| && vs[k] == u;
    PlacedAt(rule, domain, c, vs, k);
  }

  /** The search lists the admitted assignments, each once for every place it has, in counting order of
      their width tuples, and for each tuple in increasing order of the modes. */
  lemma {:induction false} SearchOrder(rule: Rule, domain: seq<nat>, lo: nat, hi: nat) returns (ps: seq<Place>)
    requires Searchable(rule, domain) && lo <= hi <= Total(rule, domain)
    ensures Rising(ps) && AllPlaced(rule, domain, lo, hi, AdmittedIn(rule, domain, lo, hi), ps)
    ensures NoneMissed(rule, domain, lo, hi, ps)
    decreases hi - lo
  {
    ps := [];
    if lo < hi {
      var first := ListedAt(rule, domain, lo);
      var rest := SearchOrder(rule, domain, lo + 1, hi);
      ps := first + rest;
      PlacedBoth(rule, domain, lo, hi, AdmittedAt(rule, domain, lo), AdmittedIn(rule, domain, lo + 1, hi), first, rest);
      RisingBoth(rule, domain, lo, hi, AdmittedAt(rule, domain, lo), AdmittedIn(rule, domain, lo + 1, hi), first, rest);
      MissedBoth(rule, domain, lo, hi, first, rest);
    }
  }

  lemma PlacedBoth(rule: Rule, domain: seq<nat>, lo: nat, hi: nat, a: seq<seq<nat>>, b: seq<seq<nat>>,
                   ps: seq<Place>, qs: seq<Place>)
    requires Searchable(rule, domain) && lo < hi
    requires AllPlaced(rule, domain, lo, lo + 1, a, ps) && AllPlaced(rule, domain, lo + 1, hi, b, qs)
    ensures AllPlaced(rule, domain, lo, hi, a + b, ps + qs)
  {
    forall i | 0 <= i < |ps + qs|
      ensures lo <= (ps + qs)[i].tuple < hi && Placed(rule, domain, (a + b)[i], (ps + qs)[i]) && rule.admits((a + b)[i])
    {
      if i >= |ps| { assert (ps + qs)[i] == qs[i - |ps|] && (a + b)[i] == b[i - |ps|]; }
    }
  }

  lemma RisingBoth(rule: Rule, domain: seq<nat>, lo: nat, hi: nat, a: seq<seq<nat>>, b: seq<seq<nat>>,
                   ps: seq<Place>, qs: seq<Place>)
    requires Searchable(rule, domain) && Rising(ps) && Rising(qs)
    requires AllPlaced(rule, domain, lo, lo + 1, a, ps) && AllPlaced(rule, domain, lo + 1, hi, b, qs)
    ensures Rising(ps + qs)
  {
    forall i, j | 0 <= i < j < |ps + qs| ensures Before((ps + qs)[i], (ps + qs)[j]) {
      if j >= |ps| { assert (ps + qs)[j] == qs[j - |ps|]; }
      if i >= |ps| { assert (ps + qs)[i] == qs[i - |ps|]; }
    }
  }

  lemma MissedBoth(rule: Rule, domain: seq<nat>, lo: nat, hi: nat, ps: seq<Place>, qs: seq<Place>)
    requires Searchable(rule, domain) && lo < hi
    requires NoneMissed(rule, domain, lo, lo + 1, ps) && NoneMissed(rule, domain, lo + 1, hi, qs)
    ensures NoneMissed(rule, domain, lo, hi, ps + qs)
  {
    forall u: seq<nat>, p: Place | Placed(rule, domain, u, p) && lo <= p.tuple < hi && rule.admits(u)
      ensures p in ps + qs
    {
      if p.tuple == lo { assert p in ps; } else { assert p in qs; }
    }
  }
}
