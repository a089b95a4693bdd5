/** Currency conversion with a given rate table, and the display of an amount with its
    currency's symbol. */
module Currency {

  /** The rate table used when rates can be neither fetched nor read from the cache: the
      base currency at 1 and nothing else. */
  function FallbackRates(base: string): map<string, real> {
    map[base := 1.0]
  }

  /** A rate that can be used: present and not 0 (the source tests the rate for
      truthiness). */
  predicate HasRate(rates: map<string, real>, to: string) {
    to in rates && rates[to] != 0.0
  }

  /** `convertCurrency`, with the rate table it would look up for `from` passed in. */
  function ConvertCurrency(amount: real, from: string, to: string, rates: map<string, real>): (r: real)
    ensures from == to || !HasRate(rates, to) ==> r == amount
    ensures from != to && HasRate(rates, to) ==> r == amount * rates[to]
  {
    if from == to then amount
    else if !HasRate(rates, to) then amount
    else amount * rates[to]
  }

  /** Converting to the same currency does not look at the rates at all. */
  lemma SameCurrencyIgnoresRates(amount: real, c: string, rates: map<string, real>, others: map<string, real>)
    ensures ConvertCurrency(amount, c, c, rates) == ConvertCurrency(amount, c, c, others) == amount
  {
  }

  /** With the fallback table every conversion is one to one. */
  lemma FallbackIsOneToOne(amount: real, from: string, to: string)
    ensures ConvertCurrency(amount, from, to, FallbackRates(from)) == amount
  {
  }

  /** Converting there and back with reciprocal rates returns the amount. */
  lemma ConvertRoundTrip(amount: real, from: string, to: string,
                         rates: map<string, real>, back: map<string, real>)
    requires from != to && HasRate(rates, to)
    requires from in back && back[from] == 1.0 / rates[to]
    ensures ConvertCurrency(ConvertCurrency(amount, from, to, rates), to, from, back) == amount
  {
    var x := rates[to];
    assert amount * x * (1.0 / x) == amount;
  }

  /** A conversion leaves the amount as it is exactly when there is nothing to convert
      (the same currency, or no usable rate), the amount is 0, or the rate is 1. */
  lemma ConvertUnchangedIff(amount: real, from: string, to: string, rates: map<string, real>)
    ensures ConvertCurrency(amount, from, to, rates) == amount
        <==> from == to || !HasRate(rates, to) || amount == 0.0 || rates[to] == 1.0
  {
    if from != to && HasRate(rates, to) && amount != 0.0 {
      var x := rates[to];
      assert amount * x == amount ==> x == 1.0 by {
        if amount * x == amount {
          assert amount * (x - 1.0) == 0.0;
          assert (amount * (x - 1.0)) / amount == x - 1.0;
        }
      }
    }
  }

  /** Conversion scales: converting a sum is converting the parts and adding. */
  lemma ConvertAdditive(a: real, b: real, from: string, to: string, rates: map<string, real>)
    ensures ConvertCurrency(a + b, from, to, rates)
         == ConvertCurrency(a, from, to, rates) + ConvertCurrency(b, from, to, rates)
  {
    if from != to && HasRate(rates, to) {
      assert (a + b) * rates[to] == a * rates[to] + b * rates[to];
    }
  }

  const KnownCodes: set<string> := {"USD", "EUR", "GBP", "JPY", "DKK"}

  /** The symbol table, falling back to the code itself. */
  function Symbol(currency: string): string {
    if currency == "USD" then "$"
    else if currency == "EUR" then "\U{20AC}"
    else if currency == "GBP" then "\U{A3}"
    else if currency == "JPY" then "\U{A5}"
    else if currency == "DKK" then "kr"
    else currency
  }

  /** A currency is shown by its code exactly when it has no symbol of its own. */
  lemma SymbolIsCodeIffUnknown(currency: string)
    ensures Symbol(currency) == currency <==> currency !in KnownCodes
  {
  }

  /** `formatCurrency`; `toFixed2` stands for `toFixed(2)`. Danish kroner put the symbol
      after the number with a space between; every other currency puts it in front with
      no space. */
  function FormatCurrency(amount: real, currency: string, toFixed2: real -> string): (r: string)
    ensures currency == "DKK" ==> r == toFixed2(amount) + " kr"
    ensures currency != "DKK" ==> r == Symbol(currency) + toFixed2(amount)
  {
    var formatted := toFixed2(amount);
    if currency == "DKK" then formatted + " " + Symbol(currency)
    else Symbol(currency) + formatted
  }

  /** The number can be read back off the display: two amounts display the same in a
      currency exactly when they format the same. */
  lemma FormatKeepsNumber(a: real, b: real, currency: string, toFixed2: real -> string)
    ensures FormatCurrency(a, currency, toFixed2) == FormatCurrency(b, currency, toFixed2)
        <==> toFixed2(a) == toFixed2(b)
  {
    var fa, fb := toFixed2(a), toFixed2(b);
    var ra, rb := FormatCurrency(a, currency, toFixed2), FormatCurrency(b, currency, toFixed2);
    if ra == rb {
      if currency == "DKK" {
        assert |fa| == |fb|;
        assert fa == ra[..|fa|] && fb == rb[..|fb|];
      } else {
        var sym := Symbol(currency);
        assert fa == ra[|sym|..] && fb == rb[|sym|..];
      }
    }
  }

  /** An unknown currency is shown by its code in front of the number. */
  lemma UnknownCurrencyPrefix(amount: real, currency: string, toFixed2: real -> string)
    requires currency !in KnownCodes
    ensures FormatCurrency(amount, currency, toFixed2) == currency + toFixed2(amount)
  {
  }
}
