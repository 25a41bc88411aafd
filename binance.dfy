/**
 * The exchange's trading symbols and their conversion to and from their
 * textual names.
 */
module Binance {

  datatype CryptoSymbol = BTC | ETH | LTC | XRP

  /** The `std::invalid_argument` exception, with its message. */
  datatype Error = InvalidArgument(message: string)

  datatype Result<T> = Ok(value: T) | Err(error: Error)

  /** The four names `FromString` accepts, matched exactly and case-sensitively. */
  const Names: set<string> := {"BTC", "ETH", "LTC", "XRP"}

  /** The name of a symbol; every symbol has one of the four names, never the fallback "Unknown". */
  function ToString(symbol: CryptoSymbol): (s: string)
    ensures s in Names
    ensures s != "Unknown"
  {
    match symbol
    case BTC => "BTC"
    case ETH => "ETH"
    case LTC => "LTC"
    case XRP => "XRP"
  }

  /** The symbol with a given name; any other string fails with `invalid_argument`. */
  function FromString(s: string): (r: Result<CryptoSymbol>)
    ensures r.Ok? <==> s in Names
    ensures r.Err? ==> r.error == InvalidArgument("Unknown crypto symbol")
  {
    if s == "BTC" then Ok(BTC)
    else if s == "ETH" then Ok(ETH)
    else if s == "LTC" then Ok(LTC)
    else if s == "XRP" then Ok(XRP)
    else Err(InvalidArgument("Unknown crypto symbol"))
  }

  /** Converting a symbol to its name and back gives the symbol. */
  lemma FromStringToString(symbol: CryptoSymbol)
    ensures FromString(ToString(symbol)) == Ok(symbol)
  {
    match symbol
    case BTC =>
    case ETH =>
    case LTC =>
    case XRP =>
  }

  /** A name that converts successfully converts back to itself. */
  lemma ToStringFromString(s: string)
    requires FromString(s).Ok?
    ensures ToString(FromString(s).value) == s
  {
  }

  /** Distinct symbols have distinct names. */
  lemma ToStringInjective(a: CryptoSymbol, b: CryptoSymbol)
    requires ToString(a) == ToString(b)
    ensures a == b
  {
    FromStringToString(a);
    FromStringToString(b);
  }
}
