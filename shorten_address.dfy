/**
 * `shortenAddress` (src/helpers/shortenAddress.ts): the first `countBefore`
 * characters, `'...'`, and the last `countAfter` characters, both cut with
 * `String.prototype.substr` (section B.2.2.1 of ECMA-262).
 */
module ShortenAddress {
  import opened JsValues

  /**
   * `s.substr(start, length)` for integral arguments; `None` is an omitted length.
   * A negative start counts from the end; `-0` is the start 0.
   */
  function Substr(s: string, start: int, length: Option<int>): (r: string)
    ensures exists i, j :: 0 <= i <= j <= |s| && r == s[i..j]
    ensures length.Some? ==> |r| <= if length.value < 0 then 0 else length.value
  {
    var size := |s|;
    var from := if start < 0 then (if size + start < 0 then 0 else size + start)
                else (if start < size then start else size);
    var len := match length
               case None => size
               case Some(l) => if l < 0 then 0 else if l > size then size else l;
    var to := if from + len < size then from + len else size;
    s[from..to]
  }

  /** Where the tail starts: `substr(-countAfter)`. */
  function TailStart(size: nat, countAfter: int): (k: nat)
    ensures k <= size
  {
    if countAfter > 0 then (if size - countAfter < 0 then 0 else size - countAfter)
    else if -countAfter < size then -countAfter else size
  }

  function ShortenAddress(address: string, countBefore: int, countAfter: int): (r: string)
    ensures var h := if countBefore < 0 then 0 else if countBefore < |address| then countBefore else |address|;
            r == address[..h] + "..." + address[TailStart(|address|, countAfter)..]
  {
    Substr(address, 0, Some(countBefore)) + "..." + Substr(address, -1 * countAfter, None)
  }

  /** Both counts default to 6. */
  function ShortenAddressDefault(address: string): (r: string)
    ensures |address| >= 12 ==> |r| == 15
    ensures |address| >= 12 ==> r == address[..6] + "..." + address[|address| - 6..]
  {
    ShortenAddress(address, 6, 6)
  }

  /** A prefix, the ellipsis, then a suffix; the ellipsis is there even for short addresses. */
  lemma PrefixEllipsisSuffix(address: string, countBefore: int, countAfter: int)
    ensures exists h, t :: ShortenAddress(address, countBefore, countAfter) == h + "..." + t
                        && h <= address && |t| <= |address| && t == address[|address| - |t|..]
  {
    var n := if countBefore < 0 then 0 else if countBefore < |address| then countBefore else |address|;
    var k := TailStart(|address|, countAfter);
    var h, t := address[..n], address[k..];
    assert ShortenAddress(address, countBefore, countAfter) == h + "..." + t;
    assert |address| - |t| == k;
  }

  /** With positive counts the output is at most `countBefore + 3 + countAfter` long. */
  lemma LengthBound(address: string, countBefore: nat, countAfter: int)
    requires countAfter >= 1
    ensures |ShortenAddress(address, countBefore, countAfter)| <= countBefore + 3 + countAfter
  {
  }

  /** `countAfter = 0` gives the whole address as the tail, since `substr(-0)` starts at 0. */
  lemma ZeroTailIsWhole(address: string, countBefore: int)
    ensures var r := ShortenAddress(address, countBefore, 0);
            r[|r| - |address|..] == address
  {
  }

  /** An address shorter than `countAfter` is the whole tail. */
  lemma ShortAddressTail(address: string, countBefore: int, countAfter: int)
    requires |address| < countAfter
    ensures var r := ShortenAddress(address, countBefore, countAfter);
            r[|r| - |address|..] == address
  {
  }
}
