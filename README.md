# BILLSense speech text and placeholder API auth, in Dafny

BILLSense is a currency-conversion helper that announces detected bills by
text-to-speech. This project models two small pure parts of it:

- **Speech text** (`src/lib/utils/speechUtils.ts`): `formatCurrencyForSpeech`
  turns an amount and a currency code into words. A falsy amount is
  "unknown amount". Eight known codes are spoken by their full names. Any
  other code is spoken as it is. `announceBill` wraps that text as
  `"Detected <text>."`, followed by `" <extra info>"` when extra info is given
  and non-empty. The module `SpeechUtils` models these as functions
  (`FormatCurrencyForSpeech`, `AnnouncementText`).
- **Placeholder auth** (`src/backend/services/authService.ts`):
  `validateApiRequest` accepts a request exactly when its `Authorization`
  header starts with `"Bearer "`. `generateApiToken` builds
  `"token_for_<userId>_<time>"`. The module `AuthService` models these as
  `ValidateApiRequest` and `GenerateApiToken`. The clock is a parameter `now`.

The module `Decimal` writes an integer in decimal. For a safe integer
(magnitude at most 2^53 - 1, `Number.MAX_SAFE_INTEGER`) this is the text
JavaScript gives, and the model applies it only to safe integers: a numeric
amount and the clock value are both of type `Decimal.SafeInteger`.
`amount.toString()` and the `${Date.now()}` template slot use it. It comes
with a parser, with a lemma that the parser reads the rendering back.
`Wrappers` holds `Option`.

The lemmas that relate each operation to an independent definition:
- the decimal rendering parses back to the same integer;
- the spoken text of a numeric amount reads back into the number and the
  currency part;
- a known code is recovered from its spoken name;
- the formatted text can be cut back out of the announcement;
- header acceptance is characterised as "is `Bearer ` + some token", in both
  directions;
- a generated token reads back into its user id and time, so tokens are
  injective in (user id, time).

## Model

| member | source | states |
|---|---|---|
| `Decimal.NatToDecimal` | src/lib/utils/speechUtils.ts:64 | a natural number is written as at least one digit, with a leading zero only for 0 itself |
| `Decimal.IntToDecimal` | src/lib/utils/speechUtils.ts:64 | a non-negative integer is written as digits only; a negative one as a minus sign followed by digits only; the minus sign appears exactly for negative numbers, and no space or underscore ever appears |
| `Decimal.NatToDecimalValue` | src/lib/utils/speechUtils.ts:64 | the digits of a natural number evaluate back to that number |
| `Decimal.IntToDecimalRoundTrip` | src/backend/services/authService.ts:39 | parsing the decimal text of any integer gives that integer back |
| `Decimal.IntToDecimalInjective` | src/backend/services/authService.ts:39 | different integers are written as different texts |
| `SpeechUtils.IsTruthy` | src/lib/utils/speechUtils.ts:64 | an amount is falsy exactly when it is the empty string, the number 0 or NaN |
| `SpeechUtils.AmountToString` | src/lib/utils/speechUtils.ts:64 | the text of a truthy amount is never empty |
| `SpeechUtils.AmountPart` | src/lib/utils/speechUtils.ts:64 | the amount part is never empty, whatever the amount |
| `SpeechUtils.CurrencyPart` | src/lib/utils/speechUtils.ts:66-79 | a code in the table is spoken as its table name; any other code is spoken unchanged |
| `SpeechUtils.FormatCurrencyForSpeech` | src/lib/utils/speechUtils.ts:62-82 | the text is exactly as long as the amount part, one separator and the currency part together |
| `SpeechUtils.FalsyAmountIsUnknown` | src/lib/utils/speechUtils.ts:64 | the empty string, 0 and NaN are all spoken as "unknown amount " followed by the currency part |
| `SpeechUtils.TextAmountVerbatim` | src/lib/utils/speechUtils.ts:64-81 | a non-empty string amount appears verbatim, then one space, then the currency part, with nothing else around them |
| `SpeechUtils.IndexOfSpace` | src/lib/utils/speechUtils.ts:81 | finds the first space of a text, or reports that there is none |
| `SpeechUtils.SpokenNumberRoundTrip` | src/lib/utils/speechUtils.ts:62-82 | the spoken text of a non-zero number reads back into that number, before the first space, and the currency part, after it |
| `SpeechUtils.KnownCurrencyNames` | src/lib/utils/speechUtils.ts:67-76 | the table has exactly eight codes, and each one maps to its fixed name (PHP to Philippine Peso, JPY to Japanese Yen, and so on) |
| `SpeechUtils.LowerCaseCodeEchoed` | src/lib/utils/speechUtils.ts:79 | the lookup is case-sensitive: "php" and "usd" are spoken as they are |
| `SpeechUtils.CodeForName` | src/lib/utils/speechUtils.ts:67-76 | the reverse lookup only returns a code of the table that has the given name |
| `SpeechUtils.KnownCodeRecoverable` | src/lib/utils/speechUtils.ts:67-79 | no two table codes share a name: the spoken name of a known code determines the code |
| `SpeechUtils.NameAsCodeIsAmbiguous` | src/lib/utils/speechUtils.ts:79 | an unknown code that equals a name ("Euro") is spoken exactly like the code it names ("EUR") |
| `SpeechUtils.AnnouncementText` | src/lib/utils/speechUtils.ts:95-98 | the announcement starts with "Detected ", then the formatted text unchanged, then "."; it ends right there exactly when the extra info is absent or empty (the cases are spelt out in AnnouncementWithoutExtra and AnnouncementWithExtra) |
| `SpeechUtils.AnnouncementWithoutExtra` | src/lib/utils/speechUtils.ts:96-98 | with no extra info, or empty extra info, the announcement is "Detected " + the formatted text + "." |
| `SpeechUtils.AnnouncementWithExtra` | src/lib/utils/speechUtils.ts:96-97 | with non-empty extra info the announcement is "Detected " + the formatted text + ". " + the extra info |
| `SpeechUtils.AnnouncementEmbedsFormatted` | src/lib/utils/speechUtils.ts:95-98 | the formatted text is embedded unchanged: it can be cut back out of the announcement for any extra info |
| `AuthService.ToLowerAscii` | src/backend/services/authService.ts:10 | header names are compared after mapping each ASCII capital letter to lower case, keeping the length |
| `AuthService.GetHeader` | src/backend/services/authService.ts:10 | a header value is present exactly when its lower-cased name is among the request's headers, and then it is the value stored under that name |
| `AuthService.AcceptsAuthHeader` | src/backend/services/authService.ts:13 | a header value passes exactly when it is present and starts with "Bearer "; the empty-string test is subsumed by the prefix test |
| `AuthService.AcceptsIffBearer` | src/backend/services/authService.ts:13-25 | a header value is accepted exactly when it is "Bearer " followed by some token, possibly empty |
| `AuthService.ValidateApiRequest` | src/backend/services/authService.ts:8-26 | a request is accepted exactly when its Authorization header is "Bearer " + some token |
| `AuthService.MissingHeaderRejected` | src/backend/services/authService.ts:10-15 | a request without an Authorization header is rejected |
| `AuthService.PrefixMatchedExactly` | src/backend/services/authService.ts:13-15 | "bearer x", "Bearer" and "" are rejected; "Bearer " + any token, "Bearer " itself included, is accepted |
| `AuthService.VerdictDependsOnlyOnAuthHeader` | src/backend/services/authService.ts:8-26 | requests with the same Authorization header value get the same verdict, whatever their method, URL, body or other headers |
| `AuthService.HeaderNameCaseInsensitive` | src/backend/services/authService.ts:10 | any two names that differ only in the case of ASCII letters look up the same header; in particular "AUTHORIZATION" and "Authorization" do |
| `AuthService.GenerateApiToken` | src/backend/services/authService.ts:32-40 | every token starts with "token_for_" and holds the user id verbatim right after that prefix |
| `AuthService.LastIndexOf` | src/backend/services/authService.ts:39 | finds the last occurrence of a character, or reports that there is none |
| `AuthService.LastIndexOfBefore` | src/backend/services/authService.ts:39 | in x + c + y where c does not occur in y, the last c is at position len(x) |
| `AuthService.TokenRoundTrip` | src/backend/services/authService.ts:39 | every token reads back into the user id and the time it was built from, even when the user id holds "_" |
| `AuthService.TokenDeterminesUserAndTime` | src/backend/services/authService.ts:39 | two tokens are equal exactly when their user ids and times are equal |
| `AuthService.GeneratedTokenAccepted` | src/backend/services/authService.ts:13-25 | a generated token sent as "Bearer " + token passes validation |

## Left out

- `speak` (src/lib/utils/speechUtils.ts:14-54) is not modelled. It drives the browser's speech-synthesis API through callbacks and events. `announceBill` is modelled up to the text it hands to `speak`. The code's default pitch is 2, while its doc comment says the default is 1 (lines 10 and 18). This is noted here only.
- `Decimal.IntToDecimal` writes the exact digits of every integer. JavaScript writes numbers of magnitude 1e21 and above in exponent form ("1e+21"), and above 2^53 - 1 its numbers are not exact integers. The model therefore applies the rendering only to `Decimal.SafeInteger` values. Numeric amounts and clock values outside that range are not modelled.
- Amounts that are non-integral numbers are not modelled. JavaScript's float-to-string formatting is out of scope, so `Amount.Number` carries an integer. Infinity is also left out. NaN is its own case, and both 0 and -0 are the integer 0.
- The lookup `currencyNames[currency]` also finds inherited object properties, such as `"constructor"`. The model treats the table as a plain map of its eight entries.
- Header lookup assumes the request's header names are stored lower-cased, as a Fetch `Headers` object stores them. Combining repeated headers into one value is not modelled.
- `Date.now()` is not modelled. The time is the parameter `now`. The commented-out JWT signing and verification do not exist in the code and are not modelled.
- src/lib/services/exchangeRateService.ts is not modelled. It only wraps network `fetch` calls.
- src/routes/api/exchange-rate/+server.ts is not modelled. It is framework glue over `parseFloat` and a floating-point product.
- src/backend/config.ts is not modelled. It holds constants and environment secrets only.
- The backend exchange-rate resolver (cache, remote lookups, fallback table) is not part of this model. Its source file, src/backend/services/exchangeRateService.ts, is not among the files modelled here.
