/**
 * `calcMarketCap` (src/helpers/calcMarketCap.ts): the market cap shown for a row
 * is the first of four candidate fields whose numeric value is positive, or `'0'`.
 */
module MarketCap {
  import opened Numeric
  import opened Records

  /** Independent statement of the rule: the first positive candidate, else zero. */
  function FirstPositive(cands: seq<Num>): (r: Num)
    ensures Positive(r) || r == Dec(0.0)
    ensures r == Dec(0.0) ==> forall i :: 0 <= i < |cands| ==> !Positive(cands[i])
    ensures Positive(r) ==> exists i :: 0 <= i < |cands| && cands[i] == r
                                       && forall j :: 0 <= j < i ==> !Positive(cands[j])
  {
    if |cands| == 0 then Dec(0.0)
    else if Positive(cands[0]) then cands[0]
    else
      var r := FirstPositive(cands[1..]);
      if Positive(r) then
        var i :| 0 <= i < |cands[1..]| && cands[1..][i] == r
                 && forall j :: 0 <= j < i ==> !Positive(cands[1..][j]);
        assert cands[i + 1] == r;
        assert forall j :: 0 < j < i + 1 ==> cands[j] == cands[1..][j - 1];
        r
      else
        r
  }

  /** The candidates in the order the guards try them. */
  function Candidates(row: Row): seq<Num>
  {
    [row.currentMcap, row.initialMcap, row.pairMcapUsd, row.pairMcapUsdInitial]
  }

  function CalcMarketCap(row: Row): (cap: Num)
    ensures cap in Candidates(row) || cap == Dec(0.0)
    ensures cap.Dec? && cap.value >= 0.0
  {
    if Positive(row.currentMcap) then row.currentMcap
    else if Positive(row.initialMcap) then row.initialMcap
    else if Positive(row.pairMcapUsd) then row.pairMcapUsd
    else if Positive(row.pairMcapUsdInitial) then row.pairMcapUsdInitial
    else Dec(0.0)
  }

  /** The guard chain is the first-positive rule over the four candidates. */
  lemma {:induction false} MatchesFirstPositive(row: Row)
    ensures CalcMarketCap(row) == FirstPositive(Candidates(row))
  {
    var c := Candidates(row);
    assert c[1..] == [row.initialMcap, row.pairMcapUsd, row.pairMcapUsdInitial];
    assert c[1..][1..] == [row.pairMcapUsd, row.pairMcapUsdInitial];
    assert c[1..][1..][1..] == [row.pairMcapUsdInitial];
    assert c[1..][1..][1..][1..] == [];
  }

  /** A positive `currentMcap` wins whatever the other fields hold. */
  lemma CurrentWins(row: Row)
    requires Positive(row.currentMcap)
    ensures CalcMarketCap(row) == row.currentMcap
  {
  }

  /** A field that is not a number is passed over. */
  lemma NaNSkipped(row: Row)
    ensures CalcMarketCap(row) != NaN
  {
  }

  /** Zero exactly when no candidate is positive. */
  lemma ZeroIff(row: Row)
    ensures CalcMarketCap(row) == Dec(0.0) <==>
            (!Positive(row.currentMcap) && !Positive(row.initialMcap)
             && !Positive(row.pairMcapUsd) && !Positive(row.pairMcapUsdInitial))
  {
  }
}
