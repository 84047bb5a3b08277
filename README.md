# Frontier fare scraper — a verified model of its core

The system searches Frontier Airlines' booking site for one-way fares between
a fixed set of Chicago and New York airports. For each origin–destination
pair it requests the search page for a chosen day. It turns every listed
flight into a record: route, departure, arrival, price and flight number.
All routes' records go into one table, and every row is stamped with the
time of the search.

This project models that core in Dafny and proves what it promises:

- `airports.dfy` — the airport table, the origin and destination lists, and
  the nested loop that builds every route (`get_airport_pairs`).
- `calendar.dfy` — the proleptic Gregorian calendar in Python's `datetime`
  range (years 1 to 9999), the day after a date, and the `YYYY-MM-DD`
  rendering (`get_tomorrow_date`).
- `prices.dfy` — `format_price`. It removes `$` and `,`, strips whitespace
  and reads a decimal, with `Invalid` standing for the `float('inf')`
  sentinel.
- `clock.dfy` — `format_time`. It matches `%I:%M %p` the way `strptime` does
  and renders `%H:%M`; anything that does not match is returned unchanged.
- `scraper.dfy` — the scraper object. `GetFlightData` filters listings into
  records; `SearchMultipleRoutes` aggregates the routes and stamps the rows.
- `text.dfy` — Python's `str.isspace`, `str.strip()`, `str.replace(c, '')`,
  and decimal digit strings.
- `wrappers.dfy` — `Option`.

The network is not modelled. The reply to the k-th search is the k-th element
of a `responses` parameter: either `Failed` or the page's listings. Each
listing carries the text of its four sub-elements, with `None` for an element
that is absent. The current date and the search time are parameters too.

The scraper does not normalise times. Departure and arrival are only stripped
of whitespace (scraper.py:72-73). A listing whose departure text is
`10:00 AM` gives departure_time `10:00 AM` (`Scraper.TwelveHourTimesKept`).

## Model

| member | source | states |
|---|---|---|
| Airports.GetAirportPairs | utils.py:16-22 | the nested loop yields exactly the origin-major product of ORIGIN_AIRPORTS and DESTINATION_AIRPORTS: 6 pairs, all distinct, origin from the first list, destination from the second, never the same airport twice, both codes keys of AIRPORTS |
| Airports.CartesianLength | utils.py:19-21 | the product of two lists has \|O\|·\|D\| pairs |
| Airports.CartesianAt | utils.py:19-21 | pair number i·\|D\|+j is (O[i], D[j]): origins vary slowest |
| Airports.CartesianMembers | utils.py:19-21 | a pair is produced iff its origin is in O and its destination in D |
| Airports.CartesianDistinct | utils.py:19-21 | distinct lists give a product without duplicates |
| Airports.CartesianNoLoop | utils.py:13-14 | when O and D share no airport, no pair goes from an airport to itself |
| Calendar.IsLeap | utils.py:26 | the Gregorian leap rule: divisible by 4, and by 400 if by 100 (DaysInMonth, Rollovers) |
| Calendar.Ordinal | utils.py:26 | the day number counted from 0001-01-01, as `date.toordinal` counts (OrdinalMonotone, NextDayIsSuccessor) |
| Calendar.NextDay | utils.py:26 | the day after a valid date is a valid later date; there is none only after 9999-12-31 (OverflowError) |
| Calendar.NextDayIsSuccessor | utils.py:26 | NextDay(d) is e iff e is valid and its day number is d's plus one, as timedelta(days=1) adds |
| Calendar.OrdinalMonotone | utils.py:26 | a later date has a larger day number |
| Calendar.YearsMonotone | utils.py:26 | a whole year fits before the start of any later year |
| Calendar.MonthsMonotone | utils.py:26 | a whole month fits before the start of any later month of the same year |
| Calendar.MonthStep | utils.py:26 | the days before month m+1 are the days before m plus m's length; month 12 ends the year |
| Calendar.WithinYear | utils.py:26 | a date's day number does not pass the end of its year |
| Calendar.DaysInMonth | utils.py:26 | every month has 28 to 31 days |
| Calendar.Rollovers | utils.py:26 | month end, year end, 29 February in a leap year and 1900 (not leap) roll over correctly |
| Calendar.FormatDate | utils.py:27 | `%Y-%m-%d` is 10 characters: 4, 2 and 2 digits with dashes at 4 and 7 |
| Calendar.FormatDateRoundTrip | utils.py:27 | reading the rendering back gives the date |
| Calendar.GetTomorrowDate | utils.py:24-27 | tomorrow is a 10-character `YYYY-MM-DD` string that reads back as NextDay(today); there is no result only for 9999-12-31 |
| Calendar.NewYearText | utils.py:27 | 2025-01-01 is rendered "2025-01-01" |
| Prices.FormatPriceSound | utils.py:29-34 | a finite price comes from text holding a digit and only digits, points, signs, `$`, `,` and whitespace; with no `-` it is not negative |
| Prices.StrayCharIsInvalid | utils.py:33-34 | any other character makes the result the sentinel |
| Prices.FreeIsInvalid | utils.py:33-34 | "free" is the sentinel |
| Prices.LessEq | utils.py:34 | ascending price order in which the `inf` sentinel sorts last (InvalidIsGreatest, LessEqIsTotalOrder) |
| Prices.InvalidIsGreatest | utils.py:34 | the sentinel orders after every finite price, as infinity does |
| Prices.LessEqIsTotalOrder | utils.py:34 | prices with the sentinel are totally ordered |
| Prices.Clean | utils.py:32 | the cleaned text is no longer than the input and neither starts nor ends with whitespace |
| Prices.CleanMembers | utils.py:32 | cleaning removes every `$` and `,` anywhere and the whitespace at both ends, keeps every other character and adds none |
| Prices.ParseUnsignedSound | utils.py:32 | an unsigned decimal that reads is made of digits and at most one point, holds a digit, and is not negative |
| Prices.ParseDecimalSound | utils.py:32 | a decimal that reads has a sign only in front, at most one point, a digit, and is non-negative unless it starts with `-` |
| Prices.ParseUnsigned | utils.py:32 | `float()` on unsigned text: accepts `d+`, `d+.d*` and `.d+` only (ParseUnsignedSound, ParseUnsignedComplete) |
| Prices.ParseDecimal | utils.py:32 | `float()` over the decimal grammar with an optional sign; anything else is the sentinel (ParseDecimalSound, ParseSignedDigits, ParseSignedPointed) |
| Prices.ParseUnsignedComplete | utils.py:32 | every `d+` reads as its integer, every `d+.d*` and `.d+` as whole part plus fraction, exactly |
| Prices.ParseSigned | utils.py:32 | a leading `+` keeps and a leading `-` negates the value of the unsigned rest |
| Prices.ParseSignedDigits | utils.py:32 | an optionally signed run of digits reads as the signed integer it spells |
| Prices.ParseSignedPointed | utils.py:32 | an optionally signed `d+.d*` or `.d+` reads as the signed decimal it spells |
| Prices.ParsePointed | utils.py:32 | `d.c` reads as whole part plus fraction, exactly |
| Prices.UngroupGroup | utils.py:32 | removing the commas of a thousands-grouped digit string gives the digits back |
| Prices.CleanFare | utils.py:32 | cleaning "$" + grouped dollars + "." + cents leaves dollars "." cents |
| Prices.CleanSignedFare | utils.py:32 | cleaning a signed `$` fare keeps the sign in front of the digits, point and cents |
| Prices.SignedFareValue | utils.py:29-32 | a fare written with an optional sign, `$`, grouped digits, `.` and a fraction reads as exactly that signed decimal |
| Prices.FareValue | utils.py:29-32 | a fare written `$`, grouped digits, `.` and a fraction reads as exactly that decimal |
| Prices.RenderUsdRoundTrip | utils.py:29-32 | format_price of a dollar amount rendered with separators and cents gives that amount back |
| Prices.FormatPriceExample | utils.py:32 | "$1,234.50" reads as 1234.5 |
| Prices.NegativeFareExample | utils.py:32 | "-$1,234.50" reads as -1234.5 |
| Prices.FormatPrice | utils.py:29-34 | format_price on a string: the cleaned text read as a decimal, or the sentinel (FormatPriceSound, StrayCharIsInvalid, SignedFareValue, RenderUsdRoundTrip) |
| Text.StripSlice | utils.py:32 | `strip()` returns a slice of its input with only whitespace before and after it |
| Text.StripEmpty | utils.py:32 | `strip()` leaves nothing iff the input is all whitespace |
| Text.Strip | scraper.py:72-75 | the stripped text is no longer than its input and neither starts nor ends with whitespace |
| Text.StripKeeps | scraper.py:72-75 | stripping keeps every character that is not whitespace |
| Text.StripFrom | scraper.py:72-75 | stripping adds no character |
| Text.IsSpace | utils.py:32 | Python's `str.isspace` on one character: the ASCII whitespace and separator controls and the Unicode space characters (used by Strip, StripSlice) |
| Text.RemoveChar | utils.py:32 | `replace(c, '')`, no longer than its input (RemoveCharMembers, RemoveCharAppend) |
| Text.RemoveCharMembers | utils.py:32 | `replace(c, '')` keeps exactly the characters other than c |
| Text.RemoveCharAppend | utils.py:32 | removing a character from a concatenation removes it from each part |
| Text.DigitsOfValue | utils.py:27 | a digit string is the zero-padded rendering of its value |
| Text.Digits | utils.py:27 | w-digit zero padding has w digits and, below 10^w, reads back as the number |
| Clock.ParseClock12 | utils.py:39 | what `%I:%M %p` accepts is an hour 1..12 and a minute 0..59 |
| Clock.HourToken | utils.py:39 | `%I` takes one or two digits spelling 1 to 12 |
| Clock.MinuteToken | utils.py:39 | `%M` takes one or two digits spelling 0 to 59 |
| Clock.Meridiem | utils.py:39 | `%p`: `am` or `pm` in any letter case, true for PM (ParseSound, ParseShape) |
| Clock.SpacedMeridiem | utils.py:39 | the `\s+` that the format's space becomes, then `%p` (ParseSound, ParseShape) |
| Clock.ParsedLength | utils.py:39 | a matching text has at least six characters |
| Clock.ParseSound | utils.py:39 | only text of the shape hour token, `:`, minute token, whitespace run, AM/PM parses, with nothing after it, and its reading is those tokens' values |
| Clock.ParseParts | utils.py:39 | the hour, minute, whitespace and meridiem parts of a text that parses, which put together give the text back |
| Clock.ParseShape | utils.py:39 | every text of the shape hour token, `:`, minute token, whitespace run, AM/PM (any case) matches, with those values |
| Clock.To24 | utils.py:39-40 | the 24-hour hour is below 24, and it is 12 or more exactly for PM |
| Clock.To24Bijective | utils.py:39-40 | 12 AM is 0 and the other hours map one to one onto 0..23 |
| Clock.Show24 | utils.py:40 | `%H:%M` is 5 characters, two digits of hour and of minute around a colon |
| Clock.FormatTime | utils.py:36-42 | format_time: `HH:MM` for a reading that parses, the input otherwise (FormatTimeSpec, FormatTimeIdempotent, FormatShow12) |
| Clock.FormatTimeSpec | utils.py:36-42 | a matching text becomes `HH:MM` with the 24-hour hour and the same minute; any other text comes back unchanged, and only then is the output the input |
| Clock.FormatTimeIdempotent | utils.py:36-42 | formatting twice is formatting once |
| Clock.Show12RoundTrip | utils.py:39 | a 12-hour reading written with or without a leading zero matches back to itself |
| Clock.FormatShow12 | utils.py:39-40 | format_time of a written 12-hour reading is its 24-hour rendering |
| Clock.AfternoonExample | utils.py:39-40 | "1:05 PM" becomes "13:05" |
| Clock.MidnightExample | utils.py:39-40 | "12:30 am" becomes "00:30" |
| Clock.GarbageExample | utils.py:41-42 | "garbage" comes back unchanged |
| Scraper.SearchParams | scraper.py:31-43 | the query for one route and date (SearchParamsFields) |
| Scraper.Params | scraper.py:32-43 | the ten request parameters as a map (SearchParamsFields) |
| Scraper.Record | scraper.py:69-76 | the record of a complete listing (FlightDataFields, TwelveHourTimesKept) |
| Scraper.Kept | scraper.py:58-67 | the complete listings of a page; every kept listing is complete (KeptMembers, KeptAppend, KeptLength) |
| Scraper.FlightData | scraper.py:58-80 | the records of a page's complete listings (FlightDataMembers, FlightDataLength, FlightDataSkip) |
| Scraper.Fetch | scraper.py:23-86 | no records for a failed search, the page's records otherwise (FrontierScraper.GetFlightData) |
| Scraper.Concat | scraper.py:94-97 | the per-route lists joined in order (CollectedAppend, CollectedEmpty) |
| Scraper.Collected | scraper.py:92-97 | all routes' records in route order (CollectedSplit, CollectedEmpty, CollectedRoutes) |
| Scraper.SearchParamsFields | scraper.py:31-43 | the query sends from, to and depart as given, empty return and promo, adult 1, child, senior and infant 0, and currency USD |
| Scraper.FlightDataAppend | scraper.py:58-77 | the records of a page in two parts are the first part's records followed by the second's: page order is kept |
| Scraper.FlightDataSingle | scraper.py:66-77 | a listing gives its record iff all four of its elements are present |
| Scraper.FlightDataSkip | scraper.py:66-67 | an incomplete listing is skipped without changing its siblings' records |
| Scraper.FlightDataStep | scraper.py:58-77 | reading one more listing appends its record if it is complete |
| Scraper.FlightDataLength | scraper.py:58-80 | there are never more records than listings, and as many exactly when all are complete |
| Scraper.FlightDataMembers | scraper.py:58-77 | a record is on the list iff it is the record of a complete listing of the page |
| Scraper.FlightDataEmpty | scraper.py:58-77 | a page gives no records iff none of its listings is complete |
| Scraper.FlightDataFields | scraper.py:69-76 | every record has the searched origin and destination, the stripped departure, arrival and flight-number texts, and format_price of the price text of a complete listing |
| Scraper.TwelveHourTimesKept | scraper.py:72 | a departure "10:00 AM" is kept as "10:00 AM", not converted |
| Scraper.KeptAppend | scraper.py:58-67 | the listing filter keeps page order across concatenation |
| Scraper.KeptMembers | scraper.py:66-67 | a listing is kept iff it is on the page and complete |
| Scraper.KeptLength | scraper.py:58-67 | the filter keeps at most all listings, and all of them exactly when all are complete |
| Scraper.Stamp | scraper.py:102-103 | every row carries its record and the one search time |
| Scraper.CollectedAppend | scraper.py:94-97 | the records of two lists of routes are the first list's followed by the second's |
| Scraper.CollectedSingle | scraper.py:95-97 | one route contributes what its search gave |
| Scraper.CollectedStep | scraper.py:94-97 | searching one more route appends that route's records |
| Scraper.CollectedSplit | scraper.py:82-84 | route k's records sit between the earlier and the later routes' records, so a failed route drops only its own |
| Scraper.CollectedEmpty | scraper.py:96-100 | nothing is collected iff every route gave nothing |
| Scraper.CollectedRoutes | scraper.py:94-97 | every collected record is for one of the searched routes |
| Scraper.RowsStampedAndRouted | scraper.py:102-103 | every row has the same search time and a searched route |
| Scraper.FrontierScraper.constructor | scraper.py:11-20 | the scraper holds the site's address and the fixed browser headers |
| Scraper.FrontierScraper.SearchRequest | scraper.py:31-49 | the GET for one route: base URL plus `/Flight/Search`, the search params and the scraper's headers (SearchParamsFields, FrontierScraper.constructor) |
| Scraper.FrontierScraper.SearchRequestsAt | scraper.py:94-95 | one request per route, the k-th for the k-th route |
| Scraper.FrontierScraper.GetFlightData | scraper.py:23-86 | sends the search for the route and date; a failed search gives no records and a page gives the records of its complete listings in page order |
| Scraper.FrontierScraper.SearchMultipleRoutes | scraper.py:88-104 | searches every route once, in order; the rows are all routes' records in route order, stamped with the search time; no rows when nothing came back |

## Left out

- HTTP transport: the `requests.Session`, `raise_for_status` and the request itself. A search is a `Request` value paired with a `Response` parameter.
- The session field of the scraper, which only exists for the transport.
- The randomised `time.sleep` throttle, because it does not affect any result.
- HTML parsing and CSS selection. A listing arrives as the text of its four elements, or `None` for an element that is absent.
- `print` logging of errors.
- `datetime.now()`: today's date and the search time are parameters. The search time is an opaque string rather than a rendered `%Y-%m-%d %H:%M:%S`.
- The pandas DataFrame: the table is a sequence of rows; an empty table is the empty sequence.
- app.py, the user interface, is not part of this model.
- Prices.FormatPrice: prices are exact decimals over the grammar sign, digits, at most one point and at least one digit. Python's `float()` also accepts exponents, `inf`, `nan`, underscores between digits and non-ASCII digits, and rounds to binary floating point. The model does neither.
- Prices.FormatPrice: format_price is modelled on strings only, which is all scraper.py:74 passes it. A value without a `replace` method, such as `None`, gives `inf` through AttributeError. Bytes and bytearray have `replace` but raise TypeError on a `str` argument, which is not caught.
- Clock.ParseClock12: `\d` and `\s` are ASCII digits and Python's whitespace only. Unicode decimal digits that `strptime`'s pattern also matches are not modelled, and AM/PM is the English (C locale) spelling, matched case-insensitively.
- Calendar.FormatDate: years below 1000 are zero-padded to four digits. Some platforms' `strftime('%Y')` does not pad them. Such dates cannot come from the present clock.
- The per-listing `except (AttributeError, ValueError)` branch (scraper.py:78-80) cannot be reached: a present element always has text, stripping cannot fail and format_price catches its own errors. The model therefore has no such branch.
