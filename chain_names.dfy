/**
 * `chainIdToName` (src/helpers/chainIdToName.ts): the display name of a chain id,
 * a switch over the id's decimal text with `'ETH'` as the default.
 */
module ChainNames {

  /** The four names the switch can produce. */
  predicate IsChainName(s: string)
  {
    s == "ETH" || s == "BSC" || s == "BASE" || s == "SOL"
  }

  function ChainIdToName(chainId: int): (name: string)
    ensures IsChainName(name)
  {
    if chainId == 1 then "ETH"
    else if chainId == 56 then "BSC"
    else if chainId == 8453 then "BASE"
    else if chainId == 900 then "SOL"
    else "ETH"
  }

  /** The id each name is listed under in the switch. */
  function NameToChainId(name: string): (id: int)
    requires IsChainName(name)
  {
    if name == "ETH" then 1 else if name == "BSC" then 56 else if name == "BASE" then 8453 else 900
  }

  /** Every name is reached, from the id listed for it. */
  lemma NameRoundTrip(name: string)
    requires IsChainName(name)
    ensures ChainIdToName(NameToChainId(name)) == name
  {
  }

  /** `BSC`, `BASE` and `SOL` each come from exactly one id. */
  lemma NonDefaultPreimage(chainId: int, name: string)
    requires IsChainName(name) && name != "ETH"
    ensures ChainIdToName(chainId) == name <==> chainId == NameToChainId(name)
  {
  }

  /** `ETH` comes from every id except 56, 8453 and 900: 1 and all unknown ids. */
  lemma EthPreimage(chainId: int)
    ensures ChainIdToName(chainId) == "ETH" <==> (chainId != 56 && chainId != 8453 && chainId != 900)
  {
  }

  /** Not injective: the declared Sepolia id 11155111 falls to the default and shows as mainnet. */
  lemma NotInjective()
    ensures ChainIdToName(11155111) == ChainIdToName(1) == "ETH"
  {
  }
}
