# Chore-reward tracker: a verified model of its logic

The application is one browser script (`script.js`). Family members record the
chores they did and the yen each chore earned. The records live in
`appData.records`, newest first, and are saved under one `localStorage` key.
The dashboard shows the current month's total, a total per family member, and
a progress bar per member, coloured by a hash of the name.

This project models the logic under the DOM code in Dafny and proves what
that logic guarantees:

- **Validation of the form** (`Records`). The name and the chore are trimmed
  with `String.prototype.trim`, and the amount is read with `parseInt`. The
  module `JsStrings` models ECMAScript strings and their white space.
  `IntParsing` models `parseInt` with no radix, following section 19.2.5 of
  ECMA-262.
- **The record store** (`Store`). `RecordStore` is a class holding the
  records and the storage slot. Its methods are submit, delete and clear-all.
  The constructor loads the slot and `Save` writes it. `Filtering` models
  `Array.prototype.filter`.
- **The monthly aggregation** (`Dashboard`). It filters the records of
  the reference month and loops over them to build `total` and `perUser`.
  `StableSort` models `Array.prototype.sort` with a descending comparator.
  The module also computes `maxVal`.
- **The hue of a name** (`Hue`). Three names have fixed hues. For any other
  name, a djb2-style hash runs over its UTF-16 code units, then the remainder
  by 360 is taken. `JsNumbers` models ToInt32 (section 7.1.6 of ECMA-262),
  `<<` (section 6.1.6.1.9) and the truncating `%` (section 6.1.6.1.6).

Strings are sequences of UTF-16 code units (`seq<CodeUnit>`), so
`charCodeAt` and `trim` are exact. Numbers that are integers are written as
`int`. The model assumes they stay below 2^53, where IEEE-754 arithmetic is
exact; amounts typed by the user have no such bound (see "## Left out").
The calls that depend on the outside world all become parameters:
`Date.now()` (the id), `new Date()` (the reference month and a record's
month), and the answers to `confirm()`.

Two properties of the code shape the model:

- **The code does not make ids unique.** It uses `Date.now()` as the id and
  never checks for duplicates. Deletion therefore removes every record with
  the given id, and no lemma assumes ids are unique.
- **Loading does not fail closed.** `loadData` calls `JSON.parse` unguarded,
  so corrupt data throws. The model's load takes the slot's content as
  already decoded, so nothing falls back to an empty store here.

## Model

| member | source | states |
|---|---|---|
| JsStrings.TrimStart | script.js:31 | TrimString(s, start) (section 22.1.3.32.1 of ECMA-262): removes leading white space and line terminators; the result is no longer than the input. Its exact effect is stated by TrimStartDropsBlankPrefix. |
| JsStrings.Trim | script.js:29-30 | `String.prototype.trim`: removes white space at both ends; the result is no longer than the input. Its exact effect is stated by TrimIsBlankFree. |
| JsStrings.TrimStartDropsBlankPrefix | script.js:31 | Skipping leading white space drops exactly a prefix of white-space code units. What is left is a suffix of the input that is empty or starts with a non-white-space unit. |
| JsStrings.TrimEndDropsBlankSuffix | script.js:29-30 | Trimming the end drops exactly a suffix of white-space code units. What is left is a prefix that is empty or ends with a non-white-space unit. |
| JsStrings.TrimIsBlankFree | script.js:29-30 | `trim()` is empty exactly when the field is all white space. Otherwise the result starts and ends with a non-white-space unit. It is the middle of the field, between a blank prefix and a blank suffix. |
| JsStrings.TrimIdempotent | script.js:29-30 | Trimming a trimmed string changes nothing. |
| IntParsing.DigitRunIsLongest | script.js:31 | The digit run parseInt reads holds digits of the radix only. It stops at the first non-digit or at the end. |
| IntParsing.SplitSign | script.js:31 | The sign is negative exactly when the first unit is `-`. What follows is the input with one leading `-` or `+` removed. |
| IntParsing.SplitRadixPrefix | script.js:31 | A leading `0x`/`0X` selects radix 16 and is removed. Otherwise the radix is 10 and the input is unchanged. |
| IntParsing.NaNWithoutDigits | script.js:31-33 | An amount field with no decimal digit anywhere parses to NaN, so validation rejects it. |
| IntParsing.ReadDigitBlock | script.js:31 | A block of digits followed by a non-digit or nothing reads as the block's value, negated when the sign is negative. |
| IntParsing.ParseSigned | script.js:31 | Leading white space and one optional sign are consumed. The sign is negative only for `-`. |
| IntParsing.ParseDecimal | script.js:31 | Input of the form white space, optional sign, decimal digits, then anything that does not continue the number parses to the value of those digits, with the sign. Examples: `" -12abc"` gives -12, and `"0"` alone, or followed by a unit that is neither a decimal digit nor `x`/`X`, gives 0. |
| IntParsing.ParseHex | script.js:31 | Input of the form white space, optional sign, `0x` or `0X`, hex digits, then a non-hex unit or the end parses to the base-16 value of those digits, with the sign. |
| IntParsing.HexPrefixWithoutDigits | script.js:31-33 | `0x` followed by no hex digit is NaN, even though `0` alone parses. |
| IntParsing.ParseInt | script.js:31 | `parseInt(value)` with no radix, step by step: trim the start, split off the sign, split off a `0x`/`0X` prefix, read the longest digit run; None stands for NaN. What it returns for every input is stated by ParseIntForms. |
| IntParsing.ParsedForm | script.js:31 | Every number parseInt returns comes from an input of the decimal form or the hexadecimal form, with that number the signed value of the form's digits. |
| IntParsing.FormParses | script.js:31 | Every input of either form parses to the signed value of its digits. |
| IntParsing.ParseIntForms | script.js:31-33 | parseInt returns `v` exactly when the input is white space, an optional sign, and then decimal digits, or `0x`/`0X` and hex digits, whose signed value is `v`, followed by anything that does not continue them. Every other input (such as `".5"`, `"abc1"`, `"+-1"`, `"- 1"`) is NaN and so refused by validation. |
| Records.Validate | script.js:29-33 | A submission is refused exactly when the trimmed name is empty, the trimmed chore is empty, or parseInt of the amount is NaN. An accepted entry holds the trimmed strings and the parsed integer. |
| Records.RejectsBlank | script.js:29-33 | A submission is refused exactly when the name or the chore is entirely white space, or the amount is NaN. |
| Records.AcceptedIsTrimmed | script.js:29-30 | An accepted name and chore begin and end with non-white-space units. Each is the middle of its field. |
| Records.RevalidateAccepted | script.js:29-33 | Validating an accepted entry's own name and chore again, with the same amount field, gives the same entry. |
| Records.AcceptsDecimalAmount | script.js:31-33 | With a non-blank name and chore, an amount such as `" 300yen"` is accepted with the value of its digits. |
| Records.NewRecord | script.js:35-41 | The new record carries the id `now`, the trimmed name and chore, the parsed amount and the entry date. |
| Store.Loaded | script.js:62-68 | `loadData` returns the saved records, or an empty list when nothing is saved. |
| Store.RecordStore.Load | script.js:62-68 | The store starts from the slot's content, and reloading gives back the records in memory. |
| Store.RecordStore.Save | script.js:70-72 | After saving, the slot holds exactly the records in memory. |
| Store.RecordStore.Submit | script.js:26-48 | A refused submission changes neither the records nor the slot. An accepted one puts the new record in front of the old list, and the slot then holds the new list. |
| Store.RecordStore.Delete | script.js:74-81 | Once confirmed, the records become those with another id and the slot holds them. Declining changes nothing. |
| Store.RecordStore.ClearAll | script.js:50-57 | Once confirmed, the records and the slot are both the empty list. Declining changes nothing. |
| Store.WithoutId | script.js:77 | `records.filter(r => r.id !== id)`: the records with another id, in order; never longer than before. Exactly which survive is stated by DeleteRemovesExactly. |
| Store.DeleteRemovesExactly | script.js:77 | A record survives deletion exactly when it was there and has another id. Every copy is kept or removed together, however many records share the id. |
| Store.DeleteKeepsOrder | script.js:77 | The surviving records are a subsequence of the old list. Deleting from a concatenation deletes from each part. |
| Store.DeleteNoMatch | script.js:77 | Deleting leaves the list unchanged exactly when no record has that id. |
| Store.DeleteIdempotent | script.js:77 | Deleting the same id twice is the same as deleting it once. |
| Store.DeleteUndoesCreate | script.js:74-81 | Deleting a record just created, whose id no other record has, gives back the list from before. |
| Filtering.Filter | script.js:146-149 | `Array.prototype.filter` with a pure predicate: the kept elements in order; never longer than the input. Its properties are the Filter lemmas below. |
| Filtering.FilterConcat | script.js:146-149 | Filtering a concatenation filters each part, in order. |
| Filtering.FilterMembership | script.js:146-149 | An element is in the filtered list exactly when it is in the input and the predicate keeps it. |
| Filtering.FilterCount | script.js:146-149 | Kept elements keep all their copies. Rejected elements lose all of theirs. |
| Filtering.FilterKeepsAll | script.js:146-149 | The filter returns its input exactly when it keeps every element. |
| Filtering.FilterKeepsNone | script.js:146-149 | The filter returns the empty list when it keeps no element. |
| Filtering.FilterIdempotent | script.js:146-149 | Filtering twice with the same predicate is the same as filtering once. |
| Filtering.FilterIsSubsequence | script.js:146-149 | The filtered list is a subsequence of the input. |
| Dashboard.MonthRecords | script.js:146-149 | `currentMonthRecords`: the records whose (year, month) is the reference month, in list order; never more than all records. |
| Dashboard.Total | script.js:151-152 | The sum of the amounts of the month's records; Tally proves the loop's `total` equals it. |
| Dashboard.PerUser | script.js:151-158 | The reference value of `perUser`: each registrant of the month mapped to the sum of their amounts. Tally proves the loop computes it. |
| Dashboard.Registrants | script.js:151-158 | The registrants of the month in order of first appearance, which is the order `Object.keys(perUser)` lists them in; never more than the records. RegistrantsExact and RegistrantsDistinct state its contents. |
| Dashboard.Users | script.js:165 | `users`: the registrants sorted by descending total with the model's stable sort. UsersAreRegistrants and UsersByTotal state its properties. |
| Dashboard.MaxVal | script.js:168 | `maxVal`: the total of the first user, or 1 when there is none. MaxValIsLargest states that it is the largest total. |
| Dashboard.OtherMonthIgnored | script.js:146-149 | Inserting a record of another month anywhere leaves the month's records unchanged. |
| Dashboard.EmptyMonth | script.js:145-168 | With no record in the reference month: no records are selected, the total is 0, no user is listed, and maxVal is 1. |
| Dashboard.NewRecordAdds | script.js:151-152 | A new record of the reference month, put in front, adds its amount to the month's total. |
| Dashboard.RegistrantsExact | script.js:151-158 | A name is a key of `perUser` exactly when some record of the month has that registrant. A name without records has total 0. |
| Dashboard.RegistrantsDistinct | script.js:151-158 | The keys of `perUser` are listed once each. |
| Dashboard.PerUserStep | script.js:153-157 | One more record adds its amount to its registrant's entry. The entry is created if the registrant had none. |
| Dashboard.TallyStep | script.js:153-157 | One loop step takes `perUser` and the key list from one prefix to the next, in both branches. When an entry has summed to 0, resetting it to `r.amount` gives the same map as adding. |
| Dashboard.Tally | script.js:151-158 | After the loop, `total` is the sum of the month's amounts. `perUser` maps each registrant of the month, and only those, to the sum of their amounts. The key order is the order of first appearance. |
| Dashboard.PerUserAddsUp | script.js:151-158 | The per-user totals add up to the month's total. |
| Dashboard.Summarize | script.js:139-168 | The dashboard's total, per-user map, user order and maxVal are those of the reference month's records. |
| Dashboard.UsersAreRegistrants | script.js:165 | The users are a permutation of the month's registrants, without duplicates. A name is a user exactly when it has a record that month. |
| Dashboard.UsersByTotal | script.js:165 | Users are ordered by non-increasing total. Users with equal totals keep the order of their first record. |
| Dashboard.MaxValIsLargest | script.js:168 | maxVal is 1 for an empty month. Otherwise it is some registrant's total and at least every registrant's total. |
| StableSort.SortByWeight | script.js:165 | `sort((a, b) => w(b) - w(a))` as a stable insertion sort. SortIsSorted, SortIsPermutation and SortIsStable state its properties, StableSortIsUnique that every stable sort agrees with it. |
| StableSort.SortIsSorted | script.js:165 | The sort orders by non-increasing weight. |
| StableSort.SortIsPermutation | script.js:165 | The sort rearranges its input: every element occurs as often as before. |
| StableSort.SortIsStable | script.js:165 | Elements of equal weight keep their relative order. |
| StableSort.SortedTiesUnique | script.js:165 | Two lists sorted by non-increasing weight that order each weight's elements the same way are equal. |
| StableSort.StableSortIsUnique | script.js:165 | Any sorted, stable arrangement of the input is the one the model computes, so any stable sort with this comparator gives the same array. |
| JsNumbers.ShiftLeft | script.js:216 | `x << count`: ToInt32(x) shifted left by count mod 32 bits, read back as a signed 32-bit integer; always a signed 32-bit value. ShiftLeftValue states its value. |
| JsNumbers.ToInt32 | script.js:216 | The result is a signed 32-bit integer congruent to the input modulo 2^32. |
| JsNumbers.ShiftLeftValue | script.js:216 | `x << n` is the signed 32-bit reading of `x * 2^(n mod 32)`. It depends only on `x` modulo 2^32. |
| JsNumbers.Remainder | script.js:218 | `n % d` has magnitude abs(n) mod abs(d). Its sign follows the dividend, so it lies strictly between -abs(d) and abs(d). |
| Hue.Override | script.js:207-212 | The `colors` table lookup: the fixed hue of 來夏, 湊斗 or 和奏, and nothing for any other name. OverriddenHues states the three values. |
| Hue.Hash | script.js:214-217 | The value of `hash` after the loop over all code units of a name. StringToHue proves the loop computes it; HashBound bounds it. |
| Hue.HueOf | script.js:207-218 | A name in the table gets its fixed hue. Any other name gets a hue strictly between -360 and 360, with the sign of its hash and the magnitude of abs(hash) mod 360. |
| Hue.StringToHue | script.js:205-219 | The loop leaves in `hash` the hash of the whole name, and the method returns that name's hue. |
| Hue.OverriddenHues | script.js:207-212 | 來夏, 湊斗 and 和奏 get exactly 35, 210 and 320. |
| Hue.HashAppend | script.js:214-217 | One more code unit extends the hash by one loop step. |
| Hue.HashBound | script.js:214-217 | After n code units, abs(hash) is at most n * (2^31 + 2^16), so it stays below 2^53 for every name shorter than 2^21 units. |
| Hue.SmallStep | script.js:216 | Without 32-bit overflow, one step is `31 * hash + c`. |
| Hue.ZPrefixHashes | script.js:214-217 | The hashes of "", "z", …, "zzzzz" are 0, 122, 3904, 121146, 3755648 and 116425210. |
| Hue.ShiftOverflows | script.js:216 | `116425210 << 5` overflows to -569360576. |
| Hue.SixZHash | script.js:214-217 | "zzzzzz" hashes to -685785664. |
| Hue.NegativeHue | script.js:218 | The hue of "zzzzzz" is -64: hues can be negative. |

## Left out

- **Rendering.** `renderHistory`, `renderUI` and the progress-bar and history markup are presentation, as are `updateDate`, `showToast` and its timer, and `form.reset()`.
- **Formatting.** The bar width `(amount / maxVal) * 100` is floating point. `formatCurrency` (`Intl.NumberFormat`) and `formatDate` are also left out.
- **Confirmation dialogs.** `confirm()` is a blocking prompt. Its answer is the `confirmed` parameter of `Delete` and `ClearAll`.
- **`localStorage` and JSON.** These are foreign APIs. The slot is an abstract field holding the last saved list, and `JSON.stringify`/`JSON.parse` are assumed to round-trip a list of records.
- **Corrupt stored data.** `JSON.parse` would throw on corrupt data, uncaught. The load takes the slot's content as already decoded.
- **Falsy `raw`.** A stored empty string would be treated as no data. `saveData` never writes one.
- **Dates.** `Date.now()` and `new Date()` are parameters.
- **Month decoding.** `new Date(r.date)` reads the UTC string written by `toISOString()` back as the same instant, and `getMonth`/`getFullYear` give its month in the current time zone. In one fixed time zone this is the local month in which the record was entered, which is what a record stores as (year, month). The model does not capture the time zone changing between entry and rendering, which can move a record entered near a month boundary into another month.
- IntParsing.ParseInt: the exact integer is returned. Rounding to the nearest Number above 2^53 is not modelled, and `parseInt("-0")`, which is -0, is the integer 0. Neither changes validation, totals or the dashboard for amounts below 2^53.
- **Sums above 2^53.** `total` and `perUser` are summed with exact integer addition. JavaScript addition rounds only above 2^53.
- Hue.StringToHue: the hash is an exact integer. `HashBound` shows that it equals the JavaScript Number for names shorter than 2^21 code units. Longer names are not modelled.
- **Object-key quirks.** `perUser` is modelled as a map whose keys are listed in insertion order. `Object.keys` lists integer-like names (such as "12") first, in numeric order, which is not modelled. Names such as `__proto__` or `constructor` would hit prototype properties in `perUser` and in the `colors` table (`colors["constructor"]` is a function, which is truthy). Such names are not modelled.
