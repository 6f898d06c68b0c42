# libsqli verification model

A Dafny model of the parts of libsqli, an Informix client library in C, whose correctness is not
evident from reading them. Check the whole project with `dafny verify dfyconfig.toml`.

**Exact decimals.** `Numbers` says what a decimal means: SQL NULL, or a signed coefficient of up to a
million digits times a power of ten. `Decimals` has the limb arithmetic of `src/sqli_decimal.c` in a
class with inline and heap storage; `DecimalText` formats and parses; `DecimalWire` states what the
base-100 payload of a value is and which values have one, and `DecimalCodec` proves the encoder and
decoder loops against that. `DecimalHeap` is about any number of decimals at once and who owns which
buffer. `Radix`, `Numerals` and `Base100` hold the three radices and both complement loops; `Status` and
`Arrays` what all modules share.

**Calendar and temporal values.** `Calendar` proves the closed-form conversions against the leap rule,
`DateWire` the binary search and the month loop, `Timestamps` the Unix time conversions.
`Temporals` validates DATETIME and INTERVAL values, `TemporalWire` and `TemporalCodec` do for their
payloads, and `TemporalText` and `TemporalTextCodec` for their text, what the decimal modules do;
`TemporalText.Spells` says what an accepted text is without parsing it.

**Pool and cancellation.** `Lease` is a step relation: any number of connections, operations, slots and
threads; every access to a lifecycle word is a step of its own, mutexes are positions of their holders.
Where an outcome depends on a socket or the server, the step has a parameter. `LeaseSafety` proves an
invariant of all interleavings and what follows for whole runs; `LeaseProgress` proves that no thread is
stuck, and `LeaseWaiting` when threads waiting for a slot are woken. Callers are assumed to register
operations only on connections that were handed out and still exist, and to release only a lease they
hold, or a connection whose slot is idle. Mutex operations do not fail.

**Receiving.** `Transport` is buffered reading over a transport that delivers any number of bytes at a
time. `Blob` writes and reads BLOB frames, and reads the other messages allowed between them. `Columns`
says where a column lies and when it is SQL NULL, and that decoding agrees. `Rows` says what fetching from
a sequence of tuples delivers; `ResultSets` stores tuples in a growing arena with row addresses into it and
refines that sequence; `Receiving` goes from the server's bytes to the caller's rows. No tuple is received
while the cursor stands on a row: all rows are received before the first fetch, or cleared first
(src/sqli_result.c:691-703).

Parameters named `memory` say whether an allocation succeeds; `newBase` is the address the allocator
chose. Integers are unbounded; where the C code depends on a width, the bound is proved, the conversion is
written out, or the exact inputs that pass it are stated, the worst of them under Findings.

## Model

| member | source | states |
|---|---|---|
| Numbers.OrderAtAnyScale | src/sqli_decimal.c:276-314 | the order of two exact values is the same at every common scale |
| Numbers.OrderIsTotal | src/sqli_decimal.c:276-314 | comparing exact values is a total preorder: antisymmetric, transitive, and equal values compare alike with everything |
| Numbers.OrderByExponent | src/sqli_decimal.c:294-297 | of two values of one sign, the one whose leading digit stands higher has the larger magnitude |
| Numbers.OrderByAligned | src/sqli_decimal.c:299-310 | with leading digits equally high, the coefficients padded with zeros to one length decide |
| Numbers.RescaledIsExact | src/sqli_decimal.c:369-395 | rescaling yields the same value at the new scale; INEXACT or LIMIT_EXCEEDED are given only if no coefficient, or none within the digit limit, denotes that value there |
| Numbers.RescaleRoundTrip | src/sqli_decimal.c:369-395 | rescaling back restores coefficient, sign and scale |
| Numbers.OrderIgnoresScale | src/sqli_decimal.c:276-314 | a comparison does not change when an operand is rescaled |
| Numbers.IntegerIsExact | src/sqli_decimal.c:236-274 | the integer returned equals the value; INEXACT exactly for values that are no integer, OUT_OF_RANGE exactly for integers outside 64 bits |
| Numbers.IntegerOfInt | src/sqli_decimal.c:219-274 | converting a 64-bit integer to a decimal of scale 0 and back gives the integer, INT64_MIN included |
| Decimals.LimbDigit | src/sqli_decimal.c:105-112 | dividing by a table entry reads the decimal digit of that weight |
| Decimals.CarryHasLimb | src/sqli_decimal.c:316-340 | the final carry of a multiplication is nonzero exactly when one more limb was counted, so it always has an allocated limb and none is left over |
| Decimals.DivisibleLimbs | src/sqli_decimal.c:342-367 | 10^k divides the coefficient exactly when the low limbs are zero and one limb leaves no remainder |
| Decimals.MultiplyInto | src/sqli_decimal.c:316-340 | limb products and carry together are factor times the coefficient, and no intermediate exceeds 64 bits |
| Decimals.ShiftAndMultiply | src/sqli_decimal.c:316-340 | the target limbs hold the coefficient times 10^power |
| Decimals.DivideInto | src/sqli_decimal.c:342-367 | long division from the top limb: the target limbs hold the quotient |
| Decimals.DivisibleByPower | src/sqli_decimal.c:342-367 | decides divisibility by 10^power without dividing |
| Decimals.ShiftAndDivide | src/sqli_decimal.c:342-367 | the target limbs hold the coefficient divided by 10^power |
| Decimals.Decimal.Reserve | src/sqli_decimal.c:44-59 | grows the buffer or fails with the stated status; the limbs in use stay the same |
| Decimals.Decimal.Move | src/sqli_decimal.c:63-80 | the destination takes over the value; inline cells are copied, never handed over |
| Decimals.Decimal.Trim | src/sqli_decimal.c:82-88 | drops leading zero limbs, keeps the coefficient, and zero loses its sign |
| Decimals.Decimal.DigitCount | src/sqli_decimal.c:90-101 | the number of decimal digits of the coefficient |
| Decimals.Decimal.DigitFromTop | src/sqli_decimal.c:105-112 | the digit at a position from the most significant one, zero past the end |
| Decimals.Decimal.SetNull | src/sqli_decimal.c:142-151 | the value becomes SQL NULL |
| Decimals.Decimal.SetParts | src/sqli_decimal.c:153-189 | stores the imported coefficient, also when it is borrowed from the object itself; any failure leaves the value unchanged |
| Decimals.Decimal.Compare | src/sqli_decimal.c:276-314 | the sign of the difference of the two exact values, found without rescaling |
| Decimals.Decimal.CompareDigits | src/sqli_decimal.c:299-307 | digit by digit comparison decides the order of the padded coefficients |
| Decimals.Decimal.SetI64 | src/sqli_decimal.c:219-234 | stores a 64-bit integer with a scale; INT64_MIN included |
| Decimals.Decimal.ToI64 | src/sqli_decimal.c:236-274 | status and result are those of the exact integer conversion |
| Decimals.Decimal.HasFraction | src/sqli_decimal.c:251-256 | a nonzero digit after the point is found exactly when 10^scale does not divide the coefficient |
| Decimals.Decimal.Accumulate | src/sqli_decimal.c:259-267 | accumulates the whole part, stopping exactly when it exceeds the limit |
| Decimals.Decimal.RescaleExact | src/sqli_decimal.c:369-395 | stores the exact rescaled value, or fails for the stated reason and changes nothing |
| Decimals.Decimal.MultiplyPower | src/sqli_decimal.c:316-340 | refuses exactly what would exceed the digit limit, else holds coefficient times 10^power |
| Decimals.Decimal.DividePower | src/sqli_decimal.c:342-367 | refuses exactly the inexact quotients, else holds the quotient |
| Decimals.Decimal.Build | src/sqli_decimal.c:170-184 | a temporary holds the imported value or reports the limit that it exceeds |
| DecimalText.TextRoundTrip | src/sqli_decimal.c:423-574 | parsing the text of any number restores coefficient, sign and scale, in all four layouts |
| DecimalText.MantissaRoundTrip | src/sqli_decimal.c:547-571 | in every layout the mantissa carries the coefficient and tells how many digits follow the point |
| DecimalText.TextLength | src/sqli_decimal.c:432-433 | the text of any number is short enough to be parsed |
| DecimalText.Format | src/sqli_decimal.c:511-574 | writes the text and its terminator, reports exactly the size that needs, and leaves the buffer alone otherwise |
| DecimalText.TextSize | src/sqli_decimal.c:529-537 | the length computed in advance is the length of the text |
| DecimalText.WritePointed | src/sqli_decimal.c:547-571 | writes all digits with the point before the k-th |
| DecimalText.WriteLeadingZero | src/sqli_decimal.c:557-564 | writes zero, point and the zeros in front of the digits |
| DecimalText.ExponentDigits | src/sqli_decimal.c:500-509 | the digits of the exponent in reverse |
| DecimalText.ScanMantissa | src/sqli_decimal.c:438-456 | accepts exactly mantissas of digits and one point, and counts digits, significant digits and fraction digits |
| DecimalText.ScanExponent | src/sqli_decimal.c:402-421 | the exponent, or the reason to refuse it, within 64 bits |
| DecimalText.FillLimbs | src/sqli_decimal.c:477-486 | filling limbs backwards yields the number the mantissa denotes |
| DecimalText.AllSignificantRead | src/sqli_decimal.c:478-486 | once the significant digits are read, only zeros are left in front |
| DecimalText.AcceptedExactly | src/sqli_decimal.c:423-496 | a text is parsed to a number exactly if it spells it: optional sign, digits with at most one point, optional exponent mark with an optional sign and digits, all within the limits; whole part, decimal places and exponent make the value |
| DecimalText.Scan | src/sqli_decimal.c:423-470 | everything that can be refused is refused before the object is touched, with the right status |
| DecimalText.Parse | src/sqli_decimal.c:423-496 | stores the number of the text; any failure leaves the value unchanged |
| Base100.ComplementValue | src/sqli_base100.h:7-18 | a number and its complement add up to zero modulo 100^n; only zero is complemented to zero |
| Base100.ComplementInvolutive | src/sqli_base100.h:7-18 | complementing twice gives the groups back |
| Base100.RadixComplement | src/sqli_base100.h:9-18 | the carry loop computes the complement of a span and touches nothing else |
| Base100.DigitComplement | src/sqli_result.c:88-98 | the loop over 100 and 99 computes the same complement |
| DecimalWire.DescriptorsAreTypes | src/sqli_decimal_codec.c:18-25 | a descriptor is accepted exactly if precision and scale are its two bytes, with precision 1 to 32 and a scale within it or floating |
| DecimalWire.PayloadGroups | src/sqli_decimal_codec.c:98-108 | a payload carries its groups, exponent and sign, and a nonzero number never becomes the all-zero payload, whatever its header |
| DecimalWire.GroupsPayload | src/sqli_decimal_codec.c:153-176 | bytes whose groups are below 100 are the payload of the number, sign and exponent read from them |
| DecimalWire.DecodedEncodes | src/sqli_decimal_codec.c:72-109 | re-encoding what a payload was decoded to gives back the same bytes, for every descriptor and payload accepted |
| DecimalWire.RefusedExactly | src/sqli_decimal_codec.c:153-221 | the payloads refused are exactly those that no canonical number encodes to |
| DecimalWire.DecodingIsInjective | src/sqli_decimal_codec.c:153-221 | two payloads of one descriptor never decode to the same number |
| DecimalWire.EncodedDecodes | src/sqli_decimal_codec.c:111-221 | whatever is encoded decodes, to the value at the scale of the descriptor or with the shortest coefficient |
| DecimalWire.EncodingIsExact | src/sqli_decimal_codec.c:72-139 | the value read back equals the value encoded, and only SQL NULL has the all-zero payload |
| DecimalWire.WidthNeverRejects | src/sqli_decimal_codec.c:94-97 | the groups of a coefficient that passed the digit checks fit the width |
| DecimalWire.FixedInexact | src/sqli_decimal_codec.c:82-84 | a fixed scale refuses as INEXACT exactly the values that are no integer at it |
| DecimalWire.FixedEncodesExactly | src/sqli_decimal_codec.c:72-109 | an integer at the scale is encoded exactly if it has no more digits than the precision, except 32 significant digits at an odd scale |
| DecimalWire.FloatingEncodesExactly | src/sqli_decimal_codec.c:78-97 | a floating type encodes exactly the values whose significant digits and leading digit position fit |
| DecimalCodec.CountTrailingZeros | src/sqli_decimal_codec.c:49-65 | counts the zeros the coefficient ends in, limb by limb |
| DecimalCodec.PutDigits | src/sqli_decimal_codec.c:98-102 | adding digits into byte pairs yields the aligned coefficient, and no byte exceeds 99 |
| DecimalCodec.CheckCoefficient | src/sqli_decimal_codec.c:75-97 | the status of the checks in their order, and the exponent and padding computed with truncating division |
| DecimalCodec.EncodeCoefficient | src/sqli_decimal_codec.c:72-109 | header and groups are the payload of the value |
| DecimalCodec.SetHeader | src/sqli_decimal_codec.c:103-107 | header, sign and complement of the groups |
| DecimalCodec.Encode | src/sqli_decimal_codec.c:111-139 | writes the payload exactly when the value has one and it fits; every failure leaves the buffer unchanged |
| DecimalCodec.AppendDigit | src/sqli_decimal_codec.c:143-151 | multiplies the four limbs by ten and adds a digit |
| DecimalCodec.ReadGroups | src/sqli_decimal_codec.c:156-165 | accepts groups below 100 and undoes the complement |
| DecimalCodec.CheckGroups | src/sqli_decimal_codec.c:168-190 | finds the digits of the groups and their scale; status and number are those of decoding the groups |
| DecimalCodec.DecodeCoefficient | src/sqli_decimal_codec.c:153-202 | stores the number the payload denotes, without allocating |
| DecimalCodec.Decode | src/sqli_decimal_codec.c:204-221 | status and value are those of the payload; a refused payload leaves the value unchanged |
| DecimalHeap.CopyValue | src/sqli_decimal.c:206-217 | copies a value, onto itself included; failure changes nothing |
| DecimalHeap.Apply | src/sqli_decimal.c:44-189 | after any operation no two objects share a buffer, inline cells stay with their owner, all other objects keep their values, and a failing operation keeps its own too |
| DecimalHeap.Create | src/sqli_decimal.c:114-124 | a new object shares nothing with the existing ones |
| Calendar.YearStep | src/sqli_temporal_codec.c:42-46 | the closed sum over years grows by the length of each year, by the leap rule of appendix C of RFC 3339 |
| Calendar.TomorrowIsNext | src/sqli_temporal_codec.c:42-53 | consecutive dates have consecutive numbers |
| Calendar.NumbersOrderDays | src/sqli_temporal_codec.c:42-53 | day numbers order valid dates as the calendar does, so a number has at most one date |
| Calendar.MarchMonths | src/sqli_result_value.c:464-467 | the linear month formula counts the days of the months from March on |
| Calendar.YearOfEra | src/sqli_result_value.c:460-463 | the corrected division finds the year within 400 years, for every day of them |
| Calendar.CivilDay | src/sqli_result_value.c:463-470 | month and day split off the day of the year form the valid date of that day |
| Calendar.DaysToYmd | src/sqli_result_value.c:454-470 | the closed form yields the valid date of every day number |
| Calendar.YmdToDaysIsExact | src/sqli_types.c:226-237 | the inverse closed form is the day number counted from 1970-01-01 |
| Calendar.YmdDefinedExactly | src/sqli_types.c:226-237 | for a valid date of a 32-bit year the intermediate results fit 32 bits exactly if the year is at least INT32_MIN + 399, one more in January and February |
| Calendar.OneDate | src/sqli_types.c:226-237 | two valid dates with the same day count are the same date |
| Timestamps.OneTime | src/sqli_types.c:239-255 | a valid timestamp is determined by its Unix time and microseconds |
| Timestamps.FloorDivision | src/sqli_types.c:268-273 | truncating division corrected for negative remainders rounds down |
| Timestamps.OverflowsExactly | src/sqli_types.c:281 | for which second counts the addition of the epoch offset overflows, which of them is the first after 1970, and which is the first that is converted wrongly instead |
| Timestamps.FromEpochSeconds | src/sqli_types.c:263-286 | defined unless that addition overflows; the timestamp is then valid and has the given Unix time exactly when the day count fits 32 bits, and is the only one |
| Timestamps.FromEpochMilliseconds | src/sqli_types.c:288-299 | the same for milliseconds, negative ones included |
| Timestamps.FromEpochDays | src/sqli_types.c:301-311 | defined for all but the largest 25568 day counts, and then the date of that day |
| Timestamps.MillisecondsFitExactly | src/sqli_types.c:239-255 | seconds of any valid timestamp fit 64 bits; milliseconds do exactly up to 9223372036854775807 of them either way, and for all years up to 9999 |
| DateWire.WordRoundTrip | src/sqli_temporal_codec.c:74-90 | four big-endian bytes give the word back |
| DateWire.BytesRoundTrip | src/sqli_temporal_codec.c:88-90 | the word of four bytes gives the bytes back |
| DateWire.WordDenotes | src/sqli_temporal_codec.c:66-94 | a word and the date it stands for determine each other, and no date has the NULL word |
| DateWire.Encode | src/sqli_temporal_codec.c:55-78 | writes the four bytes of a valid date or NULL, and nothing for any other date or too small a buffer |
| DateWire.CountDays | src/sqli_temporal_codec.c:68-71 | summing years and months gives the day number from 1899-12-31, which is never the NULL word |
| DateWire.FindYear | src/sqli_temporal_codec.c:97-104 | binary search finds the year a day falls in |
| DateWire.FindMonth | src/sqli_temporal_codec.c:105-111 | taking off whole months leaves the day of its month |
| DateWire.Decode | src/sqli_temporal_codec.c:80-112 | accepts exactly NULL and the days of years 1 to 9999, and the date decoded encodes to the same bytes |
| DateWire.BothCalendars | src/sqli_temporal_codec.c:96-112 | binary search and closed form name the same date |
| DateWire.DateRoundTrip | src/sqli_temporal_codec.c:55-112 | the payload of a valid date is accepted, and no other date has it |
| Temporals.ValidExactly | src/sqli_temporal.c:86-129 | a value is valid exactly if its range is, fields outside it are zero, those inside keep their limits, the leading field of an interval excepted, the day exists, and the fraction is no finer than its digits |
| Temporals.ValidIsADay | src/sqli_temporal.c:113-121 | a valid value with year, month and day has a valid date of the calendar |
| Temporals.ImportedIsStored | src/sqli_temporal.c:205-317 | what is stored stays valid and is stored unchanged when imported again |
| Temporals.Validate | src/sqli_temporal.c:86-129 | the first complaint about range, fields, day of month and fraction |
| Temporals.ValidateFields | src/sqli_temporal.c:91-112 | the loop finds the first field complained about |
| Temporals.Temporal.SetNull | src/sqli_temporal.c:197-203 | the value becomes NULL with its range kept |
| Temporals.Temporal.SetParts | src/sqli_temporal.c:221-317 | stores valid parts, an interval of zero without sign; a failure changes nothing |
| TemporalWire.QualifierIsWellFormed | src/sqli_temporal_codec.c:114-154 | every qualifier that is read is well formed, stands for a valid range, and never exceeds the capacity |
| TemporalWire.CarriedOnce | src/sqli_temporal_codec.c:219-235 | groups with the same number in every field and the same fraction are the same groups |
| TemporalWire.FractionRead | src/sqli_temporal_codec.c:227-235 | a written fraction reads back as the same nanoseconds |
| TemporalWire.FractionWritten | src/sqli_temporal_codec.c:257-277 | a fraction read writes the same groups |
| TemporalWire.PackedCarries | src/sqli_temporal_codec.c:260-278 | packing writes every field and the fraction at its place |
| TemporalWire.RaisedNumber | src/sqli_temporal_codec.c:279-287 | dropping leading zero groups multiplies the groups by the power of 100 that the lowered exponent makes up for |
| TemporalWire.RaisedLowers | src/sqli_temporal_codec.c:208-218 | placing groups undoes the dropping of leading zeros |
| TemporalWire.LoweredRaises | src/sqli_temporal_codec.c:204-218 | groups that can be placed without loss have exactly that many leading zeros dropped |
| TemporalWire.GroupsOfPayload | src/sqli_temporal_codec.c:279-292 | placing the groups of a payload gives the groups it was made from, and its sign |
| TemporalWire.PayloadOfGroups | src/sqli_temporal_codec.c:189-218 | the groups placed from a payload make the same payload again |
| TemporalWire.PackedUnpacks | src/sqli_temporal_codec.c:178-299 | unpacking what was packed gives the fields back, under every qualifier |
| TemporalWire.UnpackedPacks | src/sqli_temporal_codec.c:178-299 | packing what was unpacked gives the payload back, byte for byte |
| TemporalWire.DecodedEncodes | src/sqli_temporal_codec.c:301-403 | every payload accepted for a DATETIME or INTERVAL is the one its value encodes to |
| TemporalWire.EncodedDecodes | src/sqli_temporal_codec.c:301-403 | every stored value that encodes decodes to the same fields, nanoseconds and sign, with the range of the qualifier |
| TemporalWire.EncodesExactly | src/sqli_temporal_codec.c:249-259 | a stored value that matches the qualifier encodes exactly if its leading field has no more digits than the qualifier and its fraction is no finer; otherwise OUT_OF_RANGE and INEXACT in this order |
| TemporalWire.RefusedExactly | src/sqli_temporal_codec.c:178-351 | under an accepted qualifier the payloads refused are exactly those that no stored value encodes to |
| TemporalWire.DatetimeEncodes | src/sqli_temporal_codec.c:353-376 | a stored DATETIME always encodes under a matching qualifier with enough fraction digits |
| TemporalCodec.Align | src/sqli_temporal_codec.c:208-218 | moves groups into their places, failing exactly when one that is not zero has none |
| TemporalCodec.ReadIntegral | src/sqli_temporal_codec.c:219-226 | reads the integral fields in order |
| TemporalCodec.UnpackBytes | src/sqli_temporal_codec.c:178-240 | computes the fields of a payload or refuses it |
| TemporalCodec.WriteValue | src/sqli_temporal_codec.c:262-270 | writes a number into its groups from the last one back |
| TemporalCodec.WriteFields | src/sqli_temporal_codec.c:260-278 | writes all fields and the fraction |
| TemporalCodec.WritePayload | src/sqli_temporal_codec.c:279-292 | drops leading zeros, sets the header and complements a negative value |
| TemporalCodec.PackFields | src/sqli_temporal_codec.c:249-299 | writes the payload of the fields, or fails in the stated order and leaves the buffer unchanged |
| TemporalCodec.CheckNarrowing | src/sqli_temporal_codec.c:314-320 | the checks before narrowing never refuse anything |
| TemporalCodec.Decode | src/sqli_temporal_codec.c:301-351 | status and stored value are those of the payload; failure leaves the value unchanged |
| TemporalCodec.Encode | src/sqli_temporal_codec.c:353-403 | writes the payload of the stored value exactly when it has one and it fits |
| TemporalText.FoundExactly | src/sqli_temporal.c:332-350 | a number is read exactly where a whole run of digits of admissible length and size stands, and is the one it denotes |
| TemporalText.FieldExactly | src/sqli_temporal.c:377-409 | where a field with its separator stands, parsing reads it |
| TemporalText.AcceptedExactly | src/sqli_temporal.c:364-414 | a text is parsed to a value exactly if it spells it: a sign only for intervals, each field of the range once and in order with its separator, nothing behind, and the value valid |
| TemporalText.WrittenSpells | src/sqli_temporal.c:558-588 | what is written for a stored value spells it |
| TemporalText.FieldDigits | src/sqli_temporal.c:566-585 | every field of a stored value is written with as many digits as the parser admits |
| TemporalText.TextRoundTrip | src/sqli_temporal.c:364-618 | parsing the text of a stored value with its range gives the same value, for every range, sign and 64-bit leading field |
| TemporalText.IsoLayout | src/sqli_temporal.c:502-523 | a whole timestamp has its separators where the ISO parser looks for them, and its length tells the fraction digits |
| TemporalText.IsoRoundTrip | src/sqli_temporal.c:502-525 | the ISO parser infers the range and gives the value back |
| TemporalTextCodec.ReadNumber | src/sqli_temporal.c:332-350 | digits read with their limits, overflow found before too many digits |
| TemporalTextCodec.ScanField | src/sqli_temporal.c:377-409 | one field with its separator |
| TemporalTextCodec.ScanFields | src/sqli_temporal.c:377-410 | all fields of the range in order |
| TemporalTextCodec.ScanParts | src/sqli_temporal.c:364-414 | the parts of a text, validated, or the reason to refuse it |
| TemporalTextCodec.Parse | src/sqli_temporal.c:433-480 | stores what the text denotes; every failure leaves the value unchanged |
| TemporalTextCodec.ParseIsoText | src/sqli_temporal.c:502-525 | the same for ISO timestamps |
| TemporalTextCodec.WriteNumber | src/sqli_temporal.c:535-551 | writes a number with leading zeros up to its width if it fits |
| TemporalTextCodec.WriteField | src/sqli_temporal.c:566-585 | writes one field and the separator before it |
| TemporalTextCodec.WriteFields | src/sqli_temporal.c:558-588 | writes the whole text of a value, which always fits |
| TemporalTextCodec.Format | src/sqli_temporal.c:590-618 | writes text and terminator, reports the size required, and leaves the buffer unchanged otherwise |
| LeaseSafety.InitInv | src/sqli_pool.c:201-216 | a freshly created pool satisfies the invariant |
| LeaseSafety.OpStepEffect | src/sqli_cancel_posix.c:66-193 | no step of an operation changes a released connection or one that was not handed out |
| LeaseSafety.OpsKept | src/sqli_cancel_posix.c:66-193 | each step of an operation keeps what is known of all operations |
| LeaseSafety.PinnedKept | src/sqli_cancel_posix.c:75-91 | each step of an operation keeps pins and owners in correspondence |
| LeaseSafety.PoolStepEffect | src/sqli_pool.c:106-390 | no step of the pool changes a pin, clears a discard or frees a pinned connection |
| LeaseSafety.PoolKept | src/sqli_pool.c:106-390 | each step of the pool keeps slots, leases and the positions of threads consistent |
| LeaseSafety.StepKeepsInv | src/sqli_pool.c:106-390 | every step of any thread keeps the invariant |
| LeaseSafety.RunKeepsInv | src/sqli_pool.c:106-390 | the invariant holds in every state of every interleaving |
| LeaseSafety.Exclusion | src/sqli_cancel_posix.c:74-96 | a connection is never pinned and released at once, has at most one active operation, which can rely on it, and at most one lessee; a pin always has an owner |
| LeaseSafety.IdleAndShutdown | src/sqli_pool.c:249-296 | an idle slot's connection is released and unpinned, and once shutting down no slot is in use, so the branch after reconnecting is unreachable |
| LeaseSafety.ExecutorOrder | src/sqli_prepare.c:1332-1348 | the executing thread arms and finishes active operations only, and arms a prepared one after EXECUTE was written and never when writing failed |
| LeaseSafety.DestructionSucceeds | src/sqli_pool.c:106-143 | wherever the pool closes and destroys a connection, the guard against pinned ones is not hit and the connection goes |
| LeaseSafety.DiscardedForever | src/sqli_conn.c:411-431 | a discarded connection stays discarded for as long as it exists |
| LeaseSafety.GrantIsClear | src/sqli_pool.c:255-289 | acquire hands out connections whose lifecycle word is clear, the check before staying valid |
| LeaseSafety.NeverReused | src/sqli_pool.c:106-143 | a discarded connection is neither leased nor accepted by an operation at any later time |
| LeaseSafety.InterruptOnce | src/sqli_cancel_posix.c:111-155 | an operation sends at most one interrupt, and has done so exactly when requested and armed |
| LeaseSafety.InterruptWhilePinned | src/sqli_prepare.c:1332-1348 | an interrupt is sent only while active, pinned and discarded, and on the prepare path after EXECUTE was written |
| LeaseSafety.InterruptHappens | src/sqli_cancel_posix.c:66-155 | a run of twelve steps leases, prepares, writes, arms, requests and sends, so the statements about runs are not empty |
| LeaseProgress.HolderProceeds | src/sqli_pool.c:106-390 | in every reachable state the holder of the pool mutex can take its next step, whatever the server or the transport answers |
| LeaseProgress.HeldBriefly | src/sqli_pool.c:106-390 | while the pool mutex is held its holder takes at most four steps, however the threads are interleaved |
| LeaseProgress.OwnerProceeds | src/sqli_cancel_posix.c:66-193 | in every reachable state the holder of an operation's mutex can take its next step, provided that a connection about to be pinned still exists |
| LeaseProgress.OwnedBriefly | src/sqli_cancel_posix.c:66-193 | while an operation's mutex is held its holder takes at most five steps |
| LeaseProgress.WorkProceeds | src/sqli_pool.c:249-296 | a thread reconnecting a slot can always go on, and at the end needs only the pool mutex |
| LeaseProgress.RequestInterrupts | src/sqli_cancel_posix.c:111-155 | in every reachable state a request to an active, armed operation that was not yet requested can be made, discards the connection and sends the one interrupt |
| LeaseWaiting.StepIdle | src/sqli_pool.c:106-390 | exactly the steps that give a slot back, by releasing or by giving up on a connection, signal a waiting thread, and only acquiring takes an idle slot |
| LeaseWaiting.StepLosesNone | src/sqli_pool.c:249-312 | every other step than a signalled thread timing out keeps at least as many woken threads as idle slots while any thread sleeps |
| LeaseWaiting.NoLostWakeup | src/sqli_pool.c:249-312 | the same in every state of every interleaving without such a time-out; nobody sleeps in a pool that shuts down |
| LeaseWaiting.SleeperIsServed | src/sqli_pool.c:302-312 | whenever a thread sleeps though a slot is idle, a woken thread can take a slot as soon as the mutex is free |
| LeaseWaiting.LostExactly | src/sqli_pool.c:307-311 | a signalled thread that returns because its time is up loses the wakeup exactly if another thread sleeps and idle slots are as many as woken threads |
| LeaseWaiting.LostWakeup | src/sqli_pool.c:307-311 | a run of ten steps in which that leaves a thread asleep beside an idle slot, with no lease left that could signal it |
| Transport.Reader.ReadExact | src/sqli_dispatch.c:145-184 | exactly the next bytes of the stream, however the transport cuts it; with a reliable transport it fails only at the end |
| Transport.Reader.Refill | src/sqli_dispatch.c:161-176 | refilling the buffer does not change what is still to be read |
| Transport.Reader.ReadBe16 | src/sqli_dispatch.c:232-240 | the next two bytes as a big-endian number |
| Transport.Reader.ReadBe32 | src/sqli_dispatch.c:246-255 | the next four bytes as a big-endian number |
| Blob.SendBlob | src/sqli_prepare.c:1287-1314 | writes the frames of the data: chunks of at most 1024 bytes, padded, and an empty last one; if the transport fails, exactly the bytes it still took have gone out and the status is IO_ERROR |
| Blob.CutIsRefused | src/sqli_dispatch.c:449-515 | a stream that is read to its end is refused with IO_ERROR when cut anywhere before that end |
| Blob.FramesRead | src/sqli_dispatch.c:449-515 | reading frames followed by the end of the message gives exactly the data |
| Blob.ByteBuffer.Append | src/sqli_dispatch.c:322-349 | appends the bytes, growing by doubling, or fails and changes nothing |
| Blob.ReadPaddedChunk | src/sqli_dispatch.c:351-382 | reads a chunk and its padding and appends the chunk |
| Blob.DrainBytes | src/sqli_dispatch.c:309-320 | skips exactly so many bytes |
| Blob.ReadMessage | src/sqli_dispatch.c:449-515 | one message is read as the stream says |
| Blob.ReadError | src/sqli_dispatch.c:1061-1123 | an error message gives PROTO_ERROR if its two codes arrive, whatever follows, else IO_ERROR |
| Blob.ReadInfo | src/sqli_dispatch.c:1128-1146 | all items of an INFO message are skipped, up to the one of type zero |
| Blob.ReadLargeObject | src/sqli_dispatch.c:474-503 | the chunks of an LODATA message are collected up to its size; a negative size or a chunk beyond it is refused |
| Blob.FetchBlob | src/sqli_dispatch.c:445-515 | the data of the stream is collected and nothing beyond the end of the message consumed |
| Blob.SendAndFetch | src/sqli_prepare.c:1287-1316 | data sent as frames is received byte for byte, whatever the size of the read buffer and of the pieces delivered |
| Columns.Locate | src/sqli_result.c:317-438 | where a column of any type code lies, by its code and encoded length; data and span lie inside the tuple from the offset on |
| Columns.NeverLongPrefixed | src/sqli_result.c:420-437 | no type code comes to the branch for two-byte lengths |
| Columns.LocateAlone | src/sqli_result.c:121-276 | where streaming and BLOB fetching look for a column |
| Columns.LocatorsDifferExactly | src/sqli_result.c:121-438 | the two ways to locate a column differ exactly on CHAR data whose first byte makes it look prefixed or that only fits with a prefix, on an empty CHAR of unknown width at the end, and on DBOOLEAN |
| Columns.TabIsDropped | src/sqli_result.c:148-163 | CHAR(10) data that begins with a tab loses it in streaming and keeps it in fetching |
| Columns.MarkNull | src/sqli_result.c:445-541 | a column is marked SQL NULL by its marker, by having no data, or by its data, as its type says |
| Columns.DecimalColumn | src/sqli_result.c:378-387 | a DECIMAL column is located exactly if its descriptor is accepted and its payload there; its data has the width decoding demands and is marked NULL exactly if it decodes to SQL NULL |
| Columns.TemporalLocated | src/sqli_result.c:388-397 | a DATETIME or INTERVAL column is located exactly if its qualifier is accepted and its payload there |
| Columns.TemporalMarked | src/sqli_result.c:529-540 | its data then has the width decoding demands, and is marked NULL exactly if it decodes to SQL NULL |
| Columns.DateColumn | src/sqli_result.c:486-492 | a DATE column has the four bytes of a word and is marked NULL exactly if that is the NULL word |
| Rows.OffsetsFit | src/sqli_result.c:318-320 | the 32-bit limit of column offsets is never passed in a tuple of admissible size |
| Rows.LayoutIsDisjoint | src/sqli_result.c:317-443 | column data lies inside the tuple, in column order and without overlap |
| Rows.PrepareRow | src/sqli_result.c:285-535 | the loop over columns finds their places and null marks, or the failure |
| Rows.DoublingOverflowsExactly | src/sqli_dispatch.c:789-790 | doubling a capacity of the row tables overflows a signed 32-bit integer exactly for the capacity 2^30 |
| Rows.SlicesMoved | src/sqli_dispatch.c:761-774 | moving the arena and all rows by one distance changes no row |
| Rows.PayloadAdded | src/sqli_dispatch.c:776-780 | a payload put behind the used part is found there, and earlier rows stay |
| Rows.DeliversInOrder | src/sqli_result.c:901-991 | fetching delivers each well-formed row once and in order, then EOF or the failure for ever |
| Rows.NoRowAfterClosing | src/sqli_result.c:962-984 | after a rollback, a closing commit, a discard or an error no row is delivered any more |
| Rows.FailureStays | src/sqli_result.c:971-974 | a failure is reported again by every later fetch |
| ResultSets.ResultSet.GrowArena | src/sqli_dispatch.c:753-774 | room for the payload, the same rows, wherever the allocator puts the grown arena |
| ResultSets.ResultSet.MoveArena | src/sqli_dispatch.c:761-773 | rebasing all row pointers by the distance of the first keeps every row |
| ResultSets.ResultSet.ReceiveTuple | src/sqli_dispatch.c:733-816 | a complete tuple is appended byte for byte; a failure, of the transport or of any allocation, registers nothing and changes no row; with a reliable transport and memory the status is that of the message, and what happens is undefined exactly for a complete message when 2^30 rows are stored |
| ResultSets.ResultSet.Register | src/sqli_dispatch.c:788-808 | a row is entered, or not if a table cannot grow; undefined exactly with 2^30 rows |
| ResultSets.ResultSet.GrowTables | src/sqli_dispatch.c:789-803 | both tables double, or the capacity stays as it was if either cannot be reallocated |
| ResultSets.ResultSet.MarkClosed | src/sqli_result.c:635-648 | a closed result is at its end or keeps its failure |
| ResultSets.ResultSet.MoveToIndex | src/sqli_result.c:650-676 | positions on a row exactly if its layout is right, else keeps the failure |
| ResultSets.ResultSet.NextInternal | src/sqli_result.c:901-960 | one step of the cursor over the sequence of tuples |
| ResultSets.ResultSet.Fetch | src/sqli_result.c:962-991 | one step of the cursor in its circumstances, the current tuple being the one delivered |
| ResultSets.FetchAll | src/sqli_result.c:962-991 | fetching until there is none left returns the tuples up to the first malformed one, byte for byte |
| Receiving.GroupSent | src/sqli_dispatch.c:1171-1211 | the bytes of a group of tuple messages carry its tuples one behind the other |
| Receiving.ReceiveGroup | src/sqli_dispatch.c:1171-1211 | receiving a group stores its tuples in order, or a first part of them if it fails; with a reliable transport and memory it succeeds, and is undefined exactly if there are more than 2^30 rows in all |
| Receiving.ReceiveAndFetch | src/sqli_dispatch.c:733-816 | from the server's bytes to the caller's rows: every tuple up to the first malformed one, byte for byte, however the stream is cut and wherever the arena moves |

## Findings

- `src/sqli_pool.c:307-311` returns TIMEOUT when a timed wait reports that its time is up. POSIX allows such a wait
  to consume a signal sent at the same time, and then the wakeup is lost: with one slot, one thread waiting with a
  limit and one without, the second can sleep on though the slot is idle and nobody else uses the pool
  (`LeaseWaiting.LostWakeup`). This is the only way to lose one, exactly if another thread sleeps and idle slots
  are as many as woken threads (`LeaseWaiting.NoLostWakeup`, `LeaseWaiting.LostExactly`).
- `src/sqli_dispatch.c:790` doubles the capacity of the row tables in a signed 32-bit integer. With 2^30 rows stored
  the next tuple overflows it, and with fewer none does (`Rows.DoublingOverflowsExactly`,
  `ResultSets.ResultSet.ReceiveTuple`).
- `src/sqli_result.c:148-163` takes the first byte of CHAR data for a length if it makes the declared width, and the
  row cache does not (318-350). A CHAR(10) value that begins with a tab therefore loses it when streamed with
  `sqli_result_stream_bytes` (`Columns.TabIsDropped`). `Columns.LocatorsDifferExactly` has all differences.
- `src/sqli_types.c:281` adds the offset of the DATE epoch to the narrowed day count, `(int32_t)days + 25568`, in a
  signed 32-bit integer. This overflows, which C leaves undefined, exactly if
  `(floor(sec / 86400) - 2147458080) mod 2^32 < 25568`; the first such second count after 1970 is
  185540378112000 (`Timestamps.OverflowsExactly`, `Timestamps.FromEpochSeconds`). The same addition in line 307
  overflows for day counts from 2147458080 on (`Timestamps.FromEpochDays`).
- The same line narrows the day count before using it, so a defined conversion gives another time than the one asked
  for exactly if the day count does not fit 32 bits; the first such second count is 185542587187200, of day 2^31
  (`Timestamps.OverflowsExactly`).
- `src/sqli_types.c:232` computes `y - 399` in a signed 32-bit integer, which overflows for years below
  INT32_MIN + 399, one more in January and February (`Calendar.YmdDefinedExactly`). Milliseconds overflow 64 bits
  beyond about 292 million years (`Timestamps.MillisecondsFitExactly`). No date from a server comes near either.

## Left out

- Null pointer arguments: the model's objects and buffers exist, except the text buffers that may be absent.
- Numbers.Rescaled: the check of the digit limit is modelled, the one of the byte size of the limb array is not, because the first is stricter.
- LeaseSafety.Exclusion: releasing a connection that another thread leases, or that is being reconnected, is a caller error the model does not take; a failing mutex neither.
- LeaseSafety.InitInv: the loop that creates the pool and its cleanup on failure, and freeing the pool's own memory at the end of destruction.
- LeaseSafety.InterruptOnce: fairness of the scheduler, the diagnostic fields and the outcome classification of the snapshot; when an interrupt takes effect on the server.
- Blob.ReadError: the text behind the two codes, which is read for the error message only, and the end of group the source then looks for.
- Receiving.ReceiveGroup: messages of a fetch group other than tuples, and the peeking by which the source decides whether the group ends at EOT.
- ResultSets.ResultSet.ReceiveTuple: receiving while the cursor stands on a row, which the source's own calls never do; the counters for adaptive fetch sizes.
- Timestamps.FromEpochSeconds: what a compiler makes of the overflow named under Findings; the model reports the conversion as undefined there.
- DATE text, which is the YEAR TO DAY case of the DATETIME scanner with one length check.
- Server-scrollable cursors, smart large objects, retries, batches and logging: plumbing around the parts modelled.
- Sockets, TLS, timeouts, handshake, URI and sqlhosts parsing: straight-line code without a counterpart to invert it.
- Opcode guessing by peeking at the stream, for which there is no exact specification.
- Character set conversion, error message texts, display-only decimal strings, the legacy BCD codec and floating point getters.
