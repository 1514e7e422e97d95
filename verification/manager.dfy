/** The multi-raster resolver (`DEMManager::sample` in cpp/dem.cpp): every
    tile is sampled in load order, and a successful sample replaces the
    running answer when the tile's footprint magnitude is strictly below the
    running resolution. The running resolution starts at +infinity and then
    holds the SIGNED footprint of the tile last chosen. */
module Manager {
  import opened Options
  import opened GeoTransform
  import opened Sampler

  /** One tile's contribution to a query: its sample and its signed pixel
      footprint. */
  datatype Candidate = Candidate(result: SampleResult, pixelSize: real)

  /** The running `demResolution`: +infinity before any tile was chosen. */
  datatype Resolution = Unbounded | Bound(size: real)

  /** The running state of the loop: the value (`None` stands for the
      `-INFINITY` sentinel) and the resolution. */
  datatype Best = Best(value: Option<real>, resolution: Resolution)

  function Abs(x: real): real
  {
    if x < 0.0 then -x else x
  }

  predicate Below(size: real, r: Resolution)
  {
    r.Unbounded? || size < r.size
  }

  const Start := Best(None, Unbounded)

  /** One iteration of the loop, as written: the comparison uses the
      footprint's magnitude, the stored resolution its signed value. */
  function Step(b: Best, c: Candidate): (r: Best)
    ensures c.result.Fail? ==> r == b
    ensures r != b ==> r == Best(Some(c.result.value), Bound(c.pixelSize))
    ensures b.resolution.Bound? && b.resolution.size < 0.0 ==> r == b
    ensures b.resolution.Bound? ==>
      r.resolution.Bound? && Abs(r.resolution.size) <= Abs(b.resolution.size)
  {
    if c.result.Ok? && Below(Abs(c.pixelSize), b.resolution)
    then Best(Some(c.result.value), Bound(c.pixelSize))
    else b
  }

  /** The loop state after the candidates in `cs`. The value is present
      exactly when some candidate succeeded; it then comes from a successful
      candidate whose signed footprint is the stored resolution. */
  function Fold(cs: seq<Candidate>): (b: Best)
    ensures b.value.None? <==> forall i :: 0 <= i < |cs| ==> cs[i].result.Fail?
    ensures b.value.None? <==> b.resolution.Unbounded?
    ensures b.value.Some? ==>
      exists i :: 0 <= i < |cs| && cs[i].result == Ok(b.value.value) &&
                  b.resolution == Bound(cs[i].pixelSize)
    decreases |cs|
  {
    if |cs| == 0 then Start
    else
      var prefix := Fold(cs[..|cs| - 1]);
      var last := cs[|cs| - 1];
      assert forall i :: 0 <= i < |cs| - 1 ==> cs[..|cs| - 1][i] == cs[i];
      Step(prefix, last)
  }

  /** `DEMManager::sample` over precomputed candidates. */
  function Resolve(cs: seq<Candidate>): (r: Option<real>)
    ensures r.None? <==> forall i :: 0 <= i < |cs| ==> cs[i].result.Fail?
    ensures r.Some? ==> exists i :: 0 <= i < |cs| && cs[i].result == Ok(r.value)
  {
    Fold(cs).value
  }

  /** The loop of `DEMManager::sample` as written, one candidate at a time. */
  method ResolveLoop(cs: seq<Candidate>) returns (val: Option<real>)
    ensures val == Resolve(cs)
    ensures val.None? <==> forall i :: 0 <= i < |cs| ==> cs[i].result.Fail?
  {
    val := None;
    var demResolution := Unbounded;
    var i := 0;
    while i < |cs|
      invariant 0 <= i <= |cs|
      invariant Best(val, demResolution) == Fold(cs[..i])
    {
      var c := cs[i];
      if c.result.Ok? {
        if Below(Abs(c.pixelSize), demResolution) {
          val := Some(c.result.value);
          demResolution := Bound(c.pixelSize);
        }
      }
      assert cs[..i + 1][..i] == cs[..i];
      i := i + 1;
    }
    assert cs[..|cs|] == cs;
  }

  /** Samples every tile at `q` and resolves the answers. */
  function SampleTiles(tiles: seq<Tile>, junk: real, q: LatLon): (r: Option<real>)
    ensures r.None? <==> forall i :: 0 <= i < |tiles| ==> Sample(tiles[i], junk, q).Fail?
  {
    var cs := seq(|tiles|, i requires 0 <= i < |tiles| =>
                Candidate(Sample(tiles[i], junk, q), PixelSize(tiles[i].imageToGeo)));
    assert forall i :: 0 <= i < |tiles| ==> cs[i].result == Sample(tiles[i], junk, q);
    Resolve(cs)
  }

  // ---------------------------------------------------------------------
  // Finest footprint wins, when no footprint is negative

  ghost predicate NonNegativeFootprints(cs: seq<Candidate>)
  {
    forall i :: 0 <= i < |cs| ==> cs[i].pixelSize >= 0.0
  }

  /** Candidate `k` succeeded, no successful candidate has a smaller
      footprint, and every earlier successful one has a strictly larger one. */
  ghost predicate FinestFirst(cs: seq<Candidate>, k: int)
  {
    && 0 <= k < |cs|
    && cs[k].result.Ok?
    && (forall j :: 0 <= j < |cs| && cs[j].result.Ok? ==> cs[k].pixelSize <= cs[j].pixelSize)
    && (forall j :: 0 <= j < k && cs[j].result.Ok? ==> cs[k].pixelSize < cs[j].pixelSize)
  }

  lemma {:induction false} FinestWins(cs: seq<Candidate>, k: int)
    requires NonNegativeFootprints(cs) && FinestFirst(cs, k)
    ensures Fold(cs) == Best(Some(cs[k].result.value), Bound(cs[k].pixelSize))
    ensures Resolve(cs) == Some(cs[k].result.value)
    decreases |cs|
  {
    var n := |cs| - 1;
    var prefix := cs[..n];
    assert forall i :: 0 <= i < n ==> prefix[i] == cs[i];
    if k < n {
      assert FinestFirst(prefix, k);
      FinestWins(prefix, k);
    } else {
      var b := Fold(prefix);
      if b.value.Some? {
        var i :| 0 <= i < n && prefix[i].result == Ok(b.value.value) &&
                 b.resolution == Bound(prefix[i].pixelSize);
        assert cs[i].result.Ok?;
      }
    }
  }

  /** Some candidate is always finest-first once any succeeded. */
  lemma {:induction false} FinestExists(cs: seq<Candidate>) returns (k: int)
    requires exists i :: 0 <= i < |cs| && cs[i].result.Ok?
    ensures FinestFirst(cs, k)
    decreases |cs|
  {
    var n := |cs| - 1;
    var prefix := cs[..n];
    assert forall i :: 0 <= i < n ==> prefix[i] == cs[i];
    if exists i :: 0 <= i < n && prefix[i].result.Ok? {
      var k' := FinestExists(prefix);
      if cs[n].result.Ok? && cs[n].pixelSize < cs[k'].pixelSize {
        k := n;
      } else {
        k := k';
      }
    } else {
      k := n;
    }
  }

  /** With non-negative footprints the resolver answers with the value of
      the earliest successful tile of smallest footprint, and with nothing
      when no tile succeeded. */
  lemma ResolveIsFinest(cs: seq<Candidate>)
    requires NonNegativeFootprints(cs)
    ensures Resolve(cs).None? <==> forall i :: 0 <= i < |cs| ==> cs[i].result.Fail?
    ensures Resolve(cs).Some? ==>
      exists k :: FinestFirst(cs, k) && Resolve(cs) == Some(cs[k].result.value)
  {
    if exists i :: 0 <= i < |cs| && cs[i].result.Ok? {
      var k := FinestExists(cs);
      FinestWins(cs, k);
    }
  }

  /** The resolver picks the 0.1 footprint over the 0.5 footprint. */
  lemma FinerTileWins()
    ensures Resolve([Candidate(Ok(1737.5), 0.5), Candidate(Ok(1737.25), 0.1)]) == Some(1737.25)
  {
    var cs := [Candidate(Ok(1737.5), 0.5), Candidate(Ok(1737.25), 0.1)];
    assert cs[..1] == [cs[0]];
    assert [cs[0]][..0] == [];
  }

  // ---------------------------------------------------------------------
  // Negative footprints

  /** Once the stored resolution is negative, no later candidate can pass the
      magnitude comparison, so the chosen value never changes. */
  lemma {:induction false} NegativeResolutionLocksIn(cs: seq<Candidate>, rest: seq<Candidate>)
    requires Fold(cs).resolution.Bound? && Fold(cs).resolution.size < 0.0
    ensures Fold(cs + rest) == Fold(cs)
    decreases |rest|
  {
    if |rest| > 0 {
      var init := rest[..|rest| - 1];
      assert (cs + rest)[..|cs + rest| - 1] == cs + init;
      assert (cs + rest)[|cs + rest| - 1] == rest[|rest| - 1];
      NegativeResolutionLocksIn(cs, init);
    } else {
      assert cs + rest == cs;
    }
  }

  /** Two north-up tiles (negative footprints): the coarse tile loaded first
      answers although the second one is five times finer. */
  lemma SignedFootprintKeepsCoarser()
    ensures Resolve([Candidate(Ok(1737.5), -0.5), Candidate(Ok(1737.25), -0.1)]) == Some(1737.5)
  {
    var cs := [Candidate(Ok(1737.5), -0.5), Candidate(Ok(1737.25), -0.1)];
    assert cs[..1] == [cs[0]];
    assert [cs[0]][..0] == [];
  }

  // ---------------------------------------------------------------------
  // Corrected resolver: the stored resolution is the footprint's magnitude

  function StepByMagnitude(b: Best, c: Candidate): Best
  {
    if c.result.Ok? && Below(Abs(c.pixelSize), b.resolution)
    then Best(Some(c.result.value), Bound(Abs(c.pixelSize)))
    else b
  }

  function FoldByMagnitude(cs: seq<Candidate>): Best
    decreases |cs|
  {
    if |cs| == 0 then Start
    else StepByMagnitude(FoldByMagnitude(cs[..|cs| - 1]), cs[|cs| - 1])
  }

  function ResolveByMagnitude(cs: seq<Candidate>): Option<real>
  {
    FoldByMagnitude(cs).value
  }

  /** The candidates with every footprint replaced by its magnitude. */
  function Magnitudes(cs: seq<Candidate>): (ms: seq<Candidate>)
    ensures |ms| == |cs|
    ensures forall i :: 0 <= i < |cs| ==> ms[i] == Candidate(cs[i].result, Abs(cs[i].pixelSize))
  {
    seq(|cs|, i requires 0 <= i < |cs| => Candidate(cs[i].result, Abs(cs[i].pixelSize)))
  }

  lemma {:induction false} ByMagnitudeIsFoldOfMagnitudes(cs: seq<Candidate>)
    ensures FoldByMagnitude(cs) == Fold(Magnitudes(cs))
    decreases |cs|
  {
    if |cs| > 0 {
      var n := |cs| - 1;
      assert Magnitudes(cs)[..n] == Magnitudes(cs[..n]);
      ByMagnitudeIsFoldOfMagnitudes(cs[..n]);
    }
  }

  /** The corrected resolver answers with the value of the earliest
      successful tile of smallest footprint magnitude, whatever the signs. */
  lemma ResolveByMagnitudeIsFinest(cs: seq<Candidate>, k: int)
    requires FinestFirst(Magnitudes(cs), k)
    ensures ResolveByMagnitude(cs) == Some(cs[k].result.value)
  {
    ByMagnitudeIsFoldOfMagnitudes(cs);
    FinestWins(Magnitudes(cs), k);
  }

  /** Where no footprint is negative the correction changes nothing. */
  lemma ByMagnitudeAgreesOnNonNegative(cs: seq<Candidate>)
    requires NonNegativeFootprints(cs)
    ensures ResolveByMagnitude(cs) == Resolve(cs)
  {
    ByMagnitudeIsFoldOfMagnitudes(cs);
    assert Magnitudes(cs) == cs;
  }

  /** On the two north-up tiles the corrected resolver picks the finer one. */
  lemma ByMagnitudePicksFiner()
    ensures ResolveByMagnitude([Candidate(Ok(1737.5), -0.5), Candidate(Ok(1737.25), -0.1)]) == Some(1737.25)
  {
    var cs := [Candidate(Ok(1737.5), -0.5), Candidate(Ok(1737.25), -0.1)];
    var ms := Magnitudes(cs);
    assert ms[0] == Candidate(Ok(1737.5), 0.5) && ms[1] == Candidate(Ok(1737.25), 0.1);
    assert FinestFirst(ms, 1);
    ResolveByMagnitudeIsFinest(cs, 1);
  }
}
