/** pm_worker of os/pm/pm_update.c on the fields of a domain: fill the ring of remembered values,
    then average, remember and assess. */
module PmWorker {
  import opened PmUpdate

  lemma {:induction false} WeightMonotone(ws: seq<nat>, n: nat)
    requires n <= |ws|
    ensures Weight(ws[..n]) <= Weight(ws)
    decreases |ws|
  {
    if n < |ws| {
      WeightMonotone(ws[..|ws| - 1], n);
      assert ws[..|ws| - 1][..n] == ws[..n];
    } else {
      assert ws[..n] == ws;
    }
  }

  lemma PrefixStep(ws: seq<nat>, xs: seq<nat>, i: nat)
    requires i < |ws| == |xs|
    ensures Weight(ws[..i + 1]) == Weight(ws[..i]) + ws[i]
    ensures Dot(ws[..i + 1], xs[..i + 1]) == Dot(ws[..i], xs[..i]) + ws[i] * xs[i]
  {
    assert ws[..i + 1][..i] == ws[..i] && xs[..i + 1][..i] == xs[..i];
  }

  /** Every partial sum of the loop fits int32_t. */
  lemma {:induction false} PartialFits(coefN: nat, ws: seq<nat>, xs: seq<nat>, x: nat, i: nat)
    requires |ws| == |xs| && i <= |ws| && coefN + Weight(ws) <= 65538 && Within(xs, 0, INT16_MAX) && x <= INT16_MAX
    ensures coefN * x + Dot(ws[..i], xs[..i]) <= INT32_MAX
  {
    WeightMonotone(ws, i);
    assert Within(xs[..i], 0, INT16_MAX);
    SumFitsIff(coefN, ws[..i]);
    assert WeightedSum(coefN, ws[..i], xs[..i], x) <= INT32_MAX;
  }

  /** The fields of struct pm_domain_s that the worker uses. `remembered` are the values in the
      ring, oldest first. */
  class Domain {
    const coefN: nat
    const coeffs: seq<nat>
    const limits: Limits
    const memory: array<nat>
    var mndx: nat
    var mcnt: nat
    var state: nat
    var recommended: nat
    var thrcnt: nat
    ghost var remembered: seq<nat>

    ghost predicate Configured() {
      memory.Length == |coeffs| && limits.Valid() && 1 <= coefN + Weight(coeffs) <= 65538
    }

    ghost function Slot(i: nat): int
      reads this`mndx
    {
      if mndx + i >= memory.Length then mndx + i - memory.Length else mndx + i
    }

    ghost predicate Ring()
      reads this`mndx, this`mcnt, this`remembered, memory
    {
      && mcnt == |remembered| <= memory.Length && Within(remembered, 0, INT16_MAX)
      && (if mcnt < memory.Length || memory.Length == 0 then mndx == 0 else mndx < memory.Length)
      && forall i | 0 <= i < mcnt :: 0 <= Slot(i) < memory.Length && memory[Slot(i)] == remembered[i]
    }

    ghost function Now(): Gauge
      reads this`state, this`recommended, this`thrcnt
    {
      Gauge(state, recommended, thrcnt)
    }

    ghost predicate Valid()
      reads this, memory
    {
      Configured() && Ring() && state <= SLEEP && thrcnt + 1 < 65536
    }

    constructor (coefN: nat, coeffs: seq<nat>, limits: Limits)
      requires limits.Valid() && 1 <= coefN + Weight(coeffs) <= 65538
      ensures Valid() && fresh(memory) && remembered == [] && Now() == Gauge(0, 0, 0)
      ensures this.coefN == coefN && this.coeffs == coeffs && this.limits == limits
    {
      this.coefN, this.coeffs, this.limits := coefN, coeffs, limits;
      memory := new nat[|coeffs|](_ => 0);
      mndx, mcnt, state, recommended, thrcnt, remembered := 0, 0, 0, 0, 0, [];
    }

    /** The averaging loop: it reads the ring from the oldest value on, and its sum stays inside
        int32_t all the way. */
    method Weigh(accum: nat) returns (y: nat)
      requires Configured() && Ring() && mcnt == memory.Length && accum <= INT16_MAX
      ensures y == Average(coefN, coeffs, remembered, accum) <= INT16_MAX
      ensures var w := coefN + Weight(coeffs); y * w <= coefN * accum + Dot(coeffs, remembered) < y * w + w
    {
      hide Dot, Weight;
      var sum, denom := coefN * accum, coefN;
      NoWeights();
      var i, j := 0, mndx;
      while i < |coeffs|
        invariant i <= |coeffs| && (i < |coeffs| ==> j == mndx + i || j == mndx + i - memory.Length)
        invariant 0 <= j <= memory.Length
        invariant sum == coefN * accum + Dot(coeffs[..i], remembered[..i]) && denom == coefN + Weight(coeffs[..i])
      {
        if j >= memory.Length {
          j := 0;
        }
        assert j == Slot(i) && memory[j] == remembered[i];
        PrefixStep(coeffs, remembered, i);
        PartialFits(coefN, coeffs, remembered, accum, i + 1);
        sum := sum + coeffs[i] * memory[j];
        assert sum <= INT32_MAX;
        denom := denom + coeffs[i];
        i, j := i + 1, j + 1;
      }
      assert coeffs[..i] == coeffs && remembered[..i] == remembered;
      AverageBetween(coefN, coeffs, remembered, accum, 0, INT16_MAX);
      AverageIsQuotient(coefN, coeffs, remembered, accum);
      y := sum / denom;
    }

    lemma NoWeights()
      ensures Dot(coeffs[..0], remembered[..0]) == 0 && Weight(coeffs[..0]) == 0
    {
    }

    /** Put the new value over the oldest one. */
    method Remember(y: nat)
      requires Configured() && Ring() && mcnt == memory.Length > 0 && y <= INT16_MAX
      modifies this`mndx, this`remembered, memory
      ensures Ring() && remembered == old(remembered)[1..] + [y]
    {
      ghost var r := remembered;
      memory[mndx] := y;
      mndx := mndx + 1;
      if mndx >= memory.Length {
        mndx := 0;
      }
      remembered := r[1..] + [y];
      forall i | 0 <= i < mcnt ensures 0 <= Slot(i) < memory.Length && memory[Slot(i)] == remembered[i] {
        assert i + 1 < mcnt ==> Slot(i) == old(Slot(i + 1)) && memory[Slot(i)] == old(memory[Slot(i + 1)]) == r[i + 1];
      }
    }

    method Judge(y: int)
      requires limits.Valid() && state <= SLEEP && thrcnt + 1 < 65536
      modifies this`recommended, this`thrcnt
      ensures Now() == Assess(limits, old(Now()), y) && thrcnt + 1 < 65536
    {
      if state > NORMAL {
        if y > limits.exit[state - 1] {
          thrcnt := 0;
          recommended := NORMAL;
          return;
        }
      }
      if state < SLEEP {
        var index, nextstate := state, state + 1;
        if y > limits.enter[index] {
          thrcnt := 0;
          recommended := state;
        } else if recommended < nextstate {
          thrcnt := thrcnt + 1;
          if thrcnt >= limits.count[index] {
            thrcnt := 0;
            recommended := nextstate;
          }
        }
      }
    }

    /** A change to the recommended state that the drivers accept or refuse. */
    method Enter(accepted: bool)
      requires Valid() && Sane(Now())
      modifies this`state
      ensures Valid() && Now() == React(limits, old(Now()), Request(accepted))
    {
      if accepted {
        state := recommended;
      }
    }

    /** pm_worker. While the ring fills up nothing is assessed. */
    method Worker(accum: nat)
      requires Valid() && accum <= INT16_MAX
      modifies this, memory
      ensures Valid() && state == old(state)
      ensures if old(mcnt) < memory.Length then remembered == old(remembered) + [accum] && Now() == old(Now())
              else
                var y := if memory.Length == 0 then accum else Average(coefN, coeffs, old(remembered), accum);
                Now() == Assess(limits, old(Now()), y)
                && remembered == if memory.Length == 0 then [] else old(remembered)[1..] + [y]
    {
      if mcnt < memory.Length {
        memory[mcnt] := accum;
        mcnt := mcnt + 1;
        remembered := remembered + [accum];
        return;
      }
      var y := accum;
      if memory.Length > 0 {
        y := Weigh(accum);
        Remember(y);
      }
      Judge(y);
    }
  }
}
