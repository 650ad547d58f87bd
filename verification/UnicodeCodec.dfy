/** Decoding the compressed mapping. */
module UnicodeCodec {
  import opened Options
  import opened UnicodeTables

  // ------------------------------------------------------------ the decoder

  type Decoded = map<nat, seq<nat>>

  /** What the last run that covers the code says about it. */
  ghost function FromRuns(runs: seq<Run>, code: nat): Option<seq<nat>> {
    if runs == [] then None
    else
      var r := runs[|runs| - 1];
      if Covers(r, code) then Some([r.target + (code - r.first)]) else FromRuns(runs[..|runs| - 1], code)
  }

  ghost function FromSingles(singles: seq<Single>, code: nat): Option<seq<nat>> {
    if singles == [] then None
    else
      var s := singles[|singles| - 1];
      if s.code == code then Some([s.target]) else FromSingles(singles[..|singles| - 1], code)
  }

  ghost function FromExpansions(expansions: seq<Expansion>, code: nat): Option<seq<nat>> {
    if expansions == [] then None
    else
      var e := expansions[|expansions| - 1];
      if e.code == code then Some(e.points) else FromExpansions(expansions[..|expansions| - 1], code)
  }

  ghost function OrElse(a: Option<seq<nat>>, b: Option<seq<nat>>): Option<seq<nat>> {
    if a.Some? then a else b
  }

  /** Runs overwrite expansions, expansions overwrite single entries. */
  ghost function DecodeAt(c: Compressed, code: nat): Option<seq<nat>> {
    OrElse(FromRuns(c.runs, code), OrElse(FromExpansions(c.expansions, code), FromSingles(c.singles, code)))
  }

  ghost function At(d: Decoded, code: nat): Option<seq<nat>> {
    if code in d then Some(d[code]) else None
  }

  method Decode(c: Compressed) returns (d: Decoded)
    requires forall r :: r in c.runs ==> r.step == 1 || r.step == 2
    ensures forall code: nat :: At(d, code) == DecodeAt(c, code)
  {
    d := map[];
    for i := 0 to |c.singles|
      invariant forall code: nat :: At(d, code) == FromSingles(c.singles[..i], code)
    {
      d := d[c.singles[i].code := [c.singles[i].target]];
      assert c.singles[..i + 1][..i] == c.singles[..i];
    }
    assert c.singles[..|c.singles|] == c.singles;
    ghost var d1 := d;
    for i := 0 to |c.expansions|
      invariant forall code: nat :: At(d, code) == OrElse(FromExpansions(c.expansions[..i], code), At(d1, code))
    {
      d := d[c.expansions[i].code := c.expansions[i].points];
      assert c.expansions[..i + 1][..i] == c.expansions[..i];
    }
    assert c.expansions[..|c.expansions|] == c.expansions;
    ghost var d2 := d;
    for i := 0 to |c.runs|
      invariant forall code: nat :: At(d, code) == OrElse(FromRuns(c.runs[..i], code), At(d2, code))
    {
      d := ApplyRun(d, c.runs[i]);
      assert c.runs[..i + 1][..i] == c.runs[..i];
    }
    assert c.runs[..|c.runs|] == c.runs;
  }

  method ApplyRun(d: Decoded, r: Run) returns (d': Decoded)
    requires r.step == 1 || r.step == 2
    ensures forall code: nat :: At(d', code) == OrElse(FromRuns([r], code), At(d, code))
  {
    d' := d;
    var c := r.first;
    while c <= r.last
      invariant r.first <= c && Aligned(c - r.first, r.step)
      invariant forall code: nat :: At(d', code) ==
                  if Covers(r, code) && code < c then Some([r.target + (code - r.first)]) else At(d, code)
      decreases r.last + 1 - c
    {
      d' := d'[c := [r.target + (c - r.first)]];
      c := c + r.step;
    }
    assert FromRuns([], 0).None?;
    forall code: nat ensures FromRuns([r], code) == if Covers(r, code) then Some([r.target + (code - r.first)]) else None {
      assert [r][..0] == [];
    }
  }

  // ------------------------------------------- decoding restores the mapping

  lemma {:induction false} FromRunsOfUnion(m: Mapping, lookup: Lookup, runs: seq<Run>, code: nat)
    requires forall i :: 0 <= i < |runs| ==> IsProgression(runs[i], lookup)
    requires forall k :: k in lookup ==> 0 <= k < |m| && m[k] == [lookup[k]]
    ensures if Covered(runs, code) then code < |m| && FromRuns(runs, code) == Some(m[code])
            else FromRuns(runs, code) == None
  {
    if runs != [] {
      var front, r := runs[..|runs| - 1], runs[|runs| - 1];
      FromRunsOfUnion(m, lookup, front, code);
      assert runs == front + [r];
      CoveredByMore(front, r, code);
    }
  }

  lemma {:induction false} FromSinglesAt(singles: seq<Single>, code: nat)
    requires AscendingCodes(singles)
    ensures if exists s :: s in singles && s.code == code
            then exists s :: s in singles && s.code == code && FromSingles(singles, code) == Some([s.target])
            else FromSingles(singles, code) == None
  {
    if singles != [] {
      var front, s := singles[..|singles| - 1], singles[|singles| - 1];
      assert singles == front + [s];
      FromSinglesAt(front, code);
    }
  }

  lemma {:induction false} FromExpansionsAt(expansions: seq<Expansion>, code: nat)
    requires forall i, j :: 0 <= i < j < |expansions| ==> expansions[i].code < expansions[j].code
    ensures if exists e :: e in expansions && e.code == code
            then exists e :: e in expansions && e.code == code && FromExpansions(expansions, code) == Some(e.points)
            else FromExpansions(expansions, code) == None
  {
    if expansions != [] {
      var front, e := expansions[..|expansions| - 1], expansions[|expansions| - 1];
      assert expansions == front + [e];
      FromExpansionsAt(front, code);
    }
  }

  /** What a reader takes a code to map to: itself when there is no record. */
  ghost function Resolve(o: Option<seq<nat>>, code: nat): seq<nat> {
    if o.Some? then o.value else [code]
  }

  /** The compressed form says about every code exactly what the mapping said. */
  lemma DecodeRestores(m: Mapping, c: Compressed, code: nat)
    requires IsCompression(m, c) && code < |m|
    ensures Resolve(DecodeAt(c, code), code) == m[code]
  {
    var lookup, used := LookupOf(m), UsedBy(c.runs, |m|);
    FromRunsOfUnion(m, lookup, c.runs, code);
    FromSinglesAt(c.singles, code);
    ExpansionsOfBelow(m, |m|);
    FromExpansionsAt(c.expansions, code);
    if code in lookup {
      if code !in used {
        assert Single(code, lookup[code]) in c.singles;
      }
    } else if IsExpansion(m, code) {
      assert Expansion(code, m[code]) in c.expansions;
    }
  }

  /** The generator's own check of its output never fails. */
  method ValidateMapping(m: Mapping) returns (valid: bool)
    ensures valid
  {
    var c := Compress(m);
    var d := Decode(c);
    valid := true;
    for code := 0 to |m|
      invariant valid
    {
      DecodeRestores(m, c, code);
      assert At(d, code) == DecodeAt(c, code);
      var actual := if code in d then d[code] else [code];
      if actual != m[code] {
        return false;
      }
    }
  }
}
