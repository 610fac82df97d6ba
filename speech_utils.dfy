/** The text that the bill announcer speaks: an amount and a currency code
    rendered as words (`formatCurrencyForSpeech`), and the sentence built
    around that rendering (the `textToSpeak` expression of `announceBill`).
    Handing the sentence to the browser's speech synthesiser is not part of
    this model. */
module SpeechUtils {
  import opened Wrappers
  import Decimal

  /** A bill amount as the caller passes it: a string or a JavaScript number.
      Numbers are modelled by their integral values, within the range a
      JavaScript number holds exactly; NaN is its own case. */
  datatype Amount = Text(s: string) | Number(n: Decimal.SafeInteger) | NotANumber

  const UnknownAmount: string := "unknown amount"

  /** JavaScript truthiness of the amount: the empty string, 0 and NaN are
      falsy, every other string or number is truthy. */
  predicate IsTruthy(amount: Amount): (truthy: bool)
    ensures !truthy <==> amount in {Text(""), Number(0), NotANumber}
  {
    match amount
    case Text(s) => s != ""
    case Number(n) => n != 0
    case NotANumber => false
  }

  /** `amount.toString()`: a string is itself, an integer its decimal form. */
  function AmountToString(amount: Amount): (r: string)
    requires IsTruthy(amount)
    ensures r != ""
  {
    match amount
    case Text(s) => s
    case Number(n) => Decimal.IntToDecimal(n)
  }

  /** The amount part of the spoken text. */
  function AmountPart(amount: Amount): (r: string)
    ensures r != ""
  {
    if IsTruthy(amount) then AmountToString(amount) else UnknownAmount
  }

  /** The fixed table of currency codes that are spoken by name. */
  const CurrencyNames: map<string, string> := map[
    "PHP" := "Philippine Peso",
    "USD" := "US Dollar",
    "EUR" := "Euro",
    "GBP" := "British Pound",
    "JPY" := "Japanese Yen",
    "CNY" := "Chinese Yuan",
    "AUD" := "Australian Dollar",
    "CAD" := "Canadian Dollar"
  ]

  /** `currencyNames[currency] || currency`: the name when the code is in the
      table (every name there is non-empty, hence truthy), else the code. */
  function CurrencyPart(currency: string): (r: string)
    ensures currency in CurrencyNames ==> r == CurrencyNames[currency]
    ensures currency !in CurrencyNames ==> r == currency
  {
    if currency in CurrencyNames && CurrencyNames[currency] != "" then CurrencyNames[currency]
    else currency
  }

  /** `formatCurrencyForSpeech(amount, currency)`. */
  function FormatCurrencyForSpeech(amount: Amount, currency: string): (r: string)
    ensures |r| == |AmountPart(amount)| + 1 + |CurrencyPart(currency)|
  {
    AmountPart(amount) + " " + CurrencyPart(currency)
  }

  /** The sentence `announceBill` speaks. `extraInfo` is the optional third
      argument; it is appended only when truthy, that is present and
      non-empty. */
  function AnnouncementText(amount: Amount, currency: string, extraInfo: Option<string>): (r: string)
    ensures var f := FormatCurrencyForSpeech(amount, currency);
      |r| >= 10 + |f| && r[..9] == "Detected " && r[9..9 + |f|] == f && r[9 + |f|] == '.'
    ensures var f := FormatCurrencyForSpeech(amount, currency);
      |r| == 10 + |f| <==> extraInfo.None? || extraInfo.value == ""
  {
    var formatted := FormatCurrencyForSpeech(amount, currency);
    if extraInfo.Some? && extraInfo.value != "" then "Detected " + formatted + ". " + extraInfo.value
    else "Detected " + formatted + "."
  }

  // ---------------------------------------------------------------------
  // The amount part

  /** Every falsy amount (empty string, 0, NaN) is spoken as "unknown amount". */
  lemma FalsyAmountIsUnknown(amount: Amount, currency: string)
    requires amount == Text("") || amount == Number(0) || amount == NotANumber
    ensures FormatCurrencyForSpeech(amount, currency) == "unknown amount " + CurrencyPart(currency)
  {
  }

  /** A non-empty string amount is spoken verbatim, followed by one space. */
  lemma TextAmountVerbatim(s: string, currency: string)
    requires s != ""
    ensures FormatCurrencyForSpeech(Text(s), currency) == s + " " + CurrencyPart(currency)
  {
  }

  /** The first space of the spoken text, if any. */
  function IndexOfSpace(t: string): (r: Option<nat>)
    ensures r.Some? ==> r.value < |t| && t[r.value] == ' ' && ' ' !in t[..r.value]
    ensures r.None? ==> ' ' !in t
  {
    if t == [] then None
    else if t[0] == ' ' then Some(0)
    else match IndexOfSpace(t[1..])
      case None => None
      case Some(i) => assert t[..i + 1] == [t[0]] + t[1..][..i]; Some(i + 1)
  }

  lemma {:induction false} IndexOfSpaceAfter(x: string, y: string)
    requires ' ' !in x
    ensures IndexOfSpace(x + " " + y) == Some(|x|)
  {
    if x != [] {
      assert (x + " " + y)[1..] == x[1..] + " " + y;
      IndexOfSpaceAfter(x[1..], y);
    }
  }

  /** Reads back the spoken text of a numeric amount: the number before the
      first space and the currency part after it. */
  function ParseSpokenNumber(t: string): (r: Option<(int, string)>)
  {
    match IndexOfSpace(t)
    case None => None
    case Some(i) =>
      match Decimal.ParseInt(t[..i])
      case None => None
      case Some(n) => if n == 0 then None else Some((n, t[i + 1..]))
  }

  /** A non-zero number is spoken so that both the number and the currency
      part can be read back from the text. */
  lemma SpokenNumberRoundTrip(n: Decimal.SafeInteger, currency: string)
    requires n != 0
    ensures ParseSpokenNumber(FormatCurrencyForSpeech(Number(n), currency)) == Some((n, CurrencyPart(currency)))
  {
    var d := Decimal.IntToDecimal(n);
    var t := FormatCurrencyForSpeech(Number(n), currency);
    assert t == d + " " + CurrencyPart(currency);
    IndexOfSpaceAfter(d, CurrencyPart(currency));
    assert t[..|d|] == d;
    assert t[|d| + 1..] == CurrencyPart(currency);
    Decimal.IntToDecimalRoundTrip(n);
  }

  // ---------------------------------------------------------------------
  // The currency part

  /** The eight codes of the table and the names they are spoken as. */
  lemma KnownCurrencyNames()
    ensures CurrencyPart("PHP") == "Philippine Peso"
    ensures CurrencyPart("USD") == "US Dollar"
    ensures CurrencyPart("EUR") == "Euro"
    ensures CurrencyPart("GBP") == "British Pound"
    ensures CurrencyPart("JPY") == "Japanese Yen"
    ensures CurrencyPart("CNY") == "Chinese Yuan"
    ensures CurrencyPart("AUD") == "Australian Dollar"
    ensures CurrencyPart("CAD") == "Canadian Dollar"
    ensures |CurrencyNames| == 8
  {
  }

  /** The lookup is case-sensitive: a lower-case code is not in the table and
      is spoken as it is. */
  lemma LowerCaseCodeEchoed()
    ensures CurrencyPart("php") == "php"
    ensures CurrencyPart("usd") == "usd"
  {
  }

  /** The reverse of the table: the code a spoken name stands for. */
  function CodeForName(name: string): (r: Option<string>)
    ensures r.Some? ==> r.value in CurrencyNames && CurrencyNames[r.value] == name
  {
    if exists code :: code in CurrencyNames && CurrencyNames[code] == name then
      var code :| code in CurrencyNames && CurrencyNames[code] == name; Some(code)
    else None
  }

  /** No two codes of the table share a name, so the spoken name of a known
      code determines the code. */
  lemma KnownCodeRecoverable(currency: string)
    requires currency in CurrencyNames
    ensures CodeForName(CurrencyPart(currency)) == Some(currency)
  {
  }

  /** The spoken text does not always determine the code: an unknown code that
      happens to equal a name is spoken like the code it names. */
  lemma NameAsCodeIsAmbiguous()
    ensures FormatCurrencyForSpeech(Number(5), "EUR") == FormatCurrencyForSpeech(Number(5), "Euro")
  {
  }

  // ---------------------------------------------------------------------
  // The announcement

  /** Recovers the formatted part of an announcement, given the extra
      information it was built with. */
  function FormattedPartOf(text: string, extraInfo: Option<string>): (r: Option<string>)
  {
    var tail := if extraInfo.Some? && extraInfo.value != "" then ". " + extraInfo.value else ".";
    if |text| >= 9 + |tail| && text[..9] == "Detected " && text[|text| - |tail|..] == tail then
      Some(text[9..|text| - |tail|])
    else None
  }

  /** Without extra information (absent or empty) the announcement is
      "Detected ", the formatted text and a full stop. */
  lemma AnnouncementWithoutExtra(amount: Amount, currency: string, extraInfo: Option<string>)
    requires extraInfo == None || extraInfo == Some("")
    ensures AnnouncementText(amount, currency, extraInfo)
            == "Detected " + FormatCurrencyForSpeech(amount, currency) + "."
  {
  }

  /** With non-empty extra information it follows the full stop after one
      space. */
  lemma AnnouncementWithExtra(amount: Amount, currency: string, info: string)
    requires info != ""
    ensures AnnouncementText(amount, currency, Some(info))
            == "Detected " + FormatCurrencyForSpeech(amount, currency) + ". " + info
  {
  }

  /** Slicing "Detected " + f + tail back into its three parts. */
  lemma DetectedSlices(f: string, tail: string)
    ensures var text := "Detected " + f + tail;
      text[..9] == "Detected " && text[|text| - |tail|..] == tail && text[9..|text| - |tail|] == f
  {
    var text := "Detected " + f + tail;
    assert text[..9] == "Detected ";
    assert text[|text| - |tail|..] == tail;
    assert text[9..|text| - |tail|] == f;
  }

  /** The formatted text is embedded unchanged: it can be cut back out of the
      announcement, whatever the extra information. */
  lemma AnnouncementEmbedsFormatted(amount: Amount, currency: string, extraInfo: Option<string>)
    ensures FormattedPartOf(AnnouncementText(amount, currency, extraInfo), extraInfo)
            == Some(FormatCurrencyForSpeech(amount, currency))
  {
    var f := FormatCurrencyForSpeech(amount, currency);
    var text := AnnouncementText(amount, currency, extraInfo);
    if extraInfo.Some? && extraInfo.value != "" {
      var tail := ". " + extraInfo.value;
      assert text == "Detected " + f + tail;
      DetectedSlices(f, tail);
    } else {
      assert text == "Detected " + f + ".";
      DetectedSlices(f, ".");
    }
  }
}
