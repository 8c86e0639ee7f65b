# A verified model of the course exercises' core classes

This Dafny project models the core classes of a C++ course-exercise
repository and proves properties of them. The central piece is
`StringAsNumber` (hw9/main.cpp), a signed arbitrary-precision integer held as
a decimal string. The model covers its constructor and `normalize`, the
comparisons, `+ - * /` and the compound assignments. Every arithmetic result
is proved equal, as a number, to the mathematical result: C++ `/` truncates
toward zero, and dividing by zero throws.

The project also models these classes from the exercises:

- `SensorBuffer` (lab9): element-wise and bitwise operators.
- `Vehicle`/`Garage` (hw6): setters, type-name mapping, a growable array with delete-and-shift.
- `Doctor` (hw8): clamping setters.
- `convertToBirdSpeech` (lab3).
- `Doctor` (test2_sub2): patient list, removal, cast to string.
- `WebsiteReport` (test2_sub1).
- `Book` (lab6): ID counter.
- `Animal` (lab10): indexing, increment and `+`.
- The maze `Server` (hw11): depth-first path search and fixed map layout.

## Modules

| file | module | models |
|---|---|---|
| wrappers.dfy | Wrappers | `Option` (a C pointer that may be null) and `Result` (a value or the exception thrown) |
| digits.dfy | Digits | decimal digit strings and their values |
| big_number.dfy | BigNumber | `StringAsNumber`: representation, constructor, `normalize`, `digits`, `compareAbs`, comparisons |
| c_division.dfy | CDivision | C++ integer `/`, which truncates toward zero |
| additive.dfy | Additive | `StringAsNumber` `+` and `-` |
| multiplicative.dfy | Multiplicative | `StringAsNumber` `*` and `/` |
| compound_assign.dfy | CompoundAssign | `+= -= *= /=` |
| sensor_buffer.dfy | SensorBuffer | lab9 `SensorBuffer` |
| garage.dfy | Garage | hw6 `Vehicle` and `Garage` |
| doctor_schedule.dfy | DoctorSchedule | hw8 `Doctor` |
| bird_speech.dfy | BirdSpeech | lab3 `convertToBirdSpeech` |
| patient_list.dfy | PatientList | test2_sub2 `Doctor` |
| website_report.dfy | WebsiteReport | test2_sub1 `WebsiteReport` |
| book.dfy | Book | lab6 `Book` |
| animal.dfy | Animal | lab10 `Animal` |
| maze.dfy | Maze | hw11 `Server::hasValidPath` and the fixed part of `generateMap` |

Representation choices:

- A `StringAsNumber` is `Num(negative, digits)`. The subset type `BigInt` keeps only canonical values: no leading zero and no `-0`. `Text(n)` is the C string the class stores, and `IntOf(n)` is its value.
- Objects are immutable values.
  - A member that changes the object returns the new object.
  - A static counter (`idCounter`) is passed in and the next value returned.
  - A null array is the empty sequence, or `None` where the class keeps a count beside it.
- Arrays a caller passes must be long enough for the count passed with them (`Readable`). This is the precondition the class code relies on most often. Two others are listed under "Left out": `SensorBuffer.Create` takes the uninitialized contents as a parameter of the right length, and `Maze.GenerateLayout` needs a size of at least 2.

## Model

| member | source | states |
|---|---|---|
| BigNumber.IsNegative | hw9/main.cpp:9-11 | the leading `-` is present exactly when the value is below zero |
| BigNumber.Magnitude | hw9/main.cpp:13-22 | `digits()` is the canonical decimal string of the absolute value |
| BigNumber.SkipZeros | hw9/main.cpp:28-33 | the scan stops at the first non-`0` digit, or at the last digit, and skips only zeros |
| BigNumber.DropZerosValue | hw9/main.cpp:28-49 | dropping leading zeros keeps the value |
| BigNumber.Normalize | hw9/main.cpp:24-65 | the result is canonical with the same signed value as sign plus digits, so `-0` becomes `0`; its digits are a suffix of the input |
| BigNumber.NormalizeCanonical | hw9/main.cpp:24-65 | normalizing an already canonical number changes nothing |
| BigNumber.Parse | hw9/main.cpp:92-135 | a literal that is an optional `-` then at least one ASCII digit yields its value; a null pointer, empty string, lone `-` or any other character yields `0` |
| BigNumber.ParseDigits | hw9/main.cpp:92-135 | a non-empty digit string yields its non-negative value |
| BigNumber.FromDigits | hw9/main.cpp:92-135 | constructing from a non-empty digit string gives that value |
| BigNumber.AbsValue | hw9/main.cpp:216-219 | `StringAsNumber temp(x.digits())` is the absolute value of `x` |
| BigNumber.ParseText | hw9/main.cpp:92-135 | the stored text of every number is a valid literal that parses back to the same number (round trip) |
| BigNumber.ParseLeadingZero | hw9/main.cpp:31-33 | leading zeros in a literal do not change the result |
| BigNumber.ParseNegativeZero | hw9/main.cpp:58-64 | a negative zero literal such as `-000` yields the canonical `0` |
| BigNumber.LiteralConstants | hw9/main.cpp:506-514 | the literals `"0"`, `"1"` and `"10"` that division uses denote 0, 1 and 10 |
| BigNumber.Negated | hw9/main.cpp:283-289 | prefixing `-` to a positive number gives its negation |
| BigNumber.StrCmp | hw9/main.cpp:158-160 | `strcmp` returns 0 exactly on equal strings |
| BigNumber.StrCmpDigits | hw9/main.cpp:81-82 | on digit strings of equal length, `strcmp` order is numeric order |
| BigNumber.CompareAbs | hw9/main.cpp:67-83 | on canonical digit strings, the sign of `compareAbs` is the order of the values |
| BigNumber.LengthOrder | hw9/main.cpp:74-80 | a shorter canonical digit string has the smaller value |
| BigNumber.TextInjective | hw9/main.cpp:158-160 | equal stored texts mean equal numbers, so `strcmp` equality is value equality |
| BigNumber.Eq | hw9/main.cpp:158-160 | `==` holds exactly when the values are equal |
| BigNumber.Ne | hw9/main.cpp:162-164 | `!=` holds exactly when the values differ |
| BigNumber.Lt | hw9/main.cpp:166-194 | `<` is strict numeric order, including mixed signs and inverted magnitude order for two negatives |
| BigNumber.Le | hw9/main.cpp:196-198 | `<=` is numeric less-or-equal |
| BigNumber.Gt | hw9/main.cpp:200-202 | `>` is numeric greater-than |
| BigNumber.Ge | hw9/main.cpp:204-206 | `>=` is numeric greater-or-equal |
| BigNumber.Trichotomy | hw9/main.cpp:158-206 | exactly one of `<`, `==`, `>` holds, and `==` is equality of the objects |
| Digits.DigitValue | hw9/main.cpp:256-260 | `c - '0'` of a digit character is below 10 |
| Digits.DigitChar | hw9/main.cpp:275 | `d + '0'` for `d < 10` is a digit whose value is `d` |
| Additive.AddPlaceStep | hw9/main.cpp:247-283 | one iteration of the school addition loop keeps "digits written + carry at the next place = low places of lhs + rhs" |
| Additive.AddNoFinalCarry | hw9/main.cpp:237-283 | with a buffer one place longer than both operands, the carry after the last place is 0, so the buffer holds the exact sum |
| Additive.AddDigits | hw9/main.cpp:233-283 | the digit loop writes `max(len)+1` digits whose value is the sum of the operands' values |
| Additive.Add | hw9/main.cpp:208-293 | `a + b` is the canonical form of `value(a) + value(b)`, mixed signs rewritten as subtractions |
| Additive.SubPlaceStep | hw9/main.cpp:362-382 | one iteration of the borrow loop keeps "digits written + low places of small = low places of big + borrow at the next place", each digit in 0..9 |
| Additive.SubNoFinalBorrow | hw9/main.cpp:356-382 | when big > small, no borrow is left after the last place and the buffer holds big - small |
| Additive.SubDigits | hw9/main.cpp:352-383 | the borrow loop writes `len(big)` digits whose value is big - small |
| Additive.Sub | hw9/main.cpp:295-411 | `a - b` is the canonical form of `value(a) - value(b)`, mixed signs rewritten as additions |
| Additive.SubSameSign | hw9/main.cpp:327-411 | for operands of the same sign, the magnitude comparison and borrow loop give the value `value(a) - value(b)`, equal magnitudes included |
| Multiplicative.Zeros | hw9/main.cpp:431-433 | the `memset` buffer holds `lhsLen + rhsLen` `'0'` digits |
| Multiplicative.ZerosValue | hw9/main.cpp:431-433 | that buffer has value 0 |
| Multiplicative.MulPlaceStep | hw9/main.cpp:442-450 | one inner iteration adds `lhsDigit * rhsDigit` at its place, keeping the running value and a digit in 0..9 |
| Multiplicative.StoreCarry | hw9/main.cpp:452-455 | storing the final carry of a row in its still-zero place adds `carry * 10^place` |
| Multiplicative.AddRow | hw9/main.cpp:439-455 | one outer iteration adds `lhsDigit * value(rhs) * 10^k` to the buffer and leaves the higher places zero |
| Multiplicative.MulDigits | hw9/main.cpp:425-456 | the nested loops produce `lhsLen + rhsLen` digits whose value is the product |
| Multiplicative.ProductSign | hw9/main.cpp:418-421 | the product's magnitude is the product of magnitudes, negative exactly when one operand is negative |
| Multiplicative.Mul | hw9/main.cpp:413-474 | `a * b` is the canonical form of `value(a) * value(b)`; a zero operand gives `0` |
| Multiplicative.LargestChunk | hw9/main.cpp:513-523 | the inner loop finds `divisor * 10^k <= left < divisor * 10^(k+1)` with its multiple `10^k` |
| Multiplicative.ChunkedDivide | hw9/main.cpp:506-526 | chunked subtraction of non-negative operands yields `left div divisor` |
| Multiplicative.SignedQuotient | hw9/main.cpp:528-534 | negating `|a| div |b|` only when the signs differ and it is non-zero is C++ truncating division |
| Multiplicative.SignedChunkedDivide | hw9/main.cpp:489-535 | for a non-zero divisor the quotient is `a / b` truncated toward zero |
| Multiplicative.Div | hw9/main.cpp:477-536 | `/` throws exactly when the divisor is 0, including `0/0`; otherwise it is `a / b` truncated toward zero, and `0` when the dividend is 0 |
| CompoundAssign.AddAssign | hw9/main.cpp:539-542 | `+=` leaves the sum in the object |
| CompoundAssign.SubAssign | hw9/main.cpp:544-547 | `-=` leaves the difference |
| CompoundAssign.MulAssign | hw9/main.cpp:549-552 | `*=` leaves the product |
| CompoundAssign.DivAssign | hw9/main.cpp:554-557 | `/=` throws exactly on a zero divisor and then leaves the object unchanged; otherwise it leaves the truncated quotient |
| SensorBuffer.Create | lab9/main.cpp:20-31 | a negative size fails the allocation; otherwise the name, scale and size are stored |
| SensorBuffer.SetValue | lab9/main.cpp:458-464 | only an in-range index is written, and only that element changes |
| SensorBuffer.Zip | lab9/main.cpp:129-141 | an element-wise operation applies to the first `min(size, other.size)` elements and keeps the rest |
| SensorBuffer.MapAll | lab9/main.cpp:144-152 | a scalar operation applies to every element |
| SensorBuffer.AddBuffer | lab9/main.cpp:129-141 | `+=`/`+` with a buffer adds element-wise over the common length and keeps the name and scale |
| SensorBuffer.SubBuffer | lab9/main.cpp:154-163 | `-=`/`-` with a buffer subtracts element-wise over the common length |
| SensorBuffer.MulBuffer | lab9/main.cpp:175-184 | `*=`/`*` with a buffer multiplies element-wise over the common length |
| SensorBuffer.DivBuffer | lab9/main.cpp:196-207 | `/=`/`/` with a buffer divides element-wise with C++ truncation and skips a zero divisor element |
| SensorBuffer.AddScalar | lab9/main.cpp:144-152 | `+= v` adds `v` to every element |
| SensorBuffer.SubScalar | lab9/main.cpp:165-173 | `-= v` subtracts `v` from every element |
| SensorBuffer.MulScalar | lab9/main.cpp:186-194 | `*= v` multiplies every element by `v` |
| SensorBuffer.DivScalar | lab9/main.cpp:209-220 | `/= 0` changes nothing; otherwise every element is divided with C++ truncation |
| SensorBuffer.SubUndoesAdd | lab9/main.cpp:129-163 | subtracting a buffer undoes adding it |
| SensorBuffer.SubUndoesAddScalar | lab9/main.cpp:144-173 | subtracting a scalar undoes adding it |
| SensorBuffer.DivUndoesMulScalar | lab9/main.cpp:186-220 | dividing by a non-zero scalar undoes multiplying by it |
| SensorBuffer.DivUndoesMulBuffer | lab9/main.cpp:175-207 | dividing by a buffer with no zero element undoes multiplying by it |
| SensorBuffer.Signed | lab9/main.cpp:286-353 | reading 32 bits as a two's-complement `int` gives an `int` whose bits are those |
| SensorBuffer.SignedUnsigned | lab9/main.cpp:286-353 | an `int`'s two's-complement bits read back as the same `int` |
| SensorBuffer.BitwiseBits | lab9/main.cpp:286-353 | every bit `i < k` of a bit-by-bit operation on `k` bits is the operator applied to bit `i` of each operand |
| SensorBuffer.BitAnd | lab9/main.cpp:286-296 | `&` of two `int`s is an `int` whose 32-bit pattern has a bit set exactly when both operands have it set |
| SensorBuffer.BitOr | lab9/main.cpp:309-319 | `\|` of two `int`s is an `int` with a bit set exactly when either operand has it set |
| SensorBuffer.BitXor | lab9/main.cpp:332-342 | `^` of two `int`s is an `int` with a bit set exactly when the operands' bits differ |
| SensorBuffer.WithZeros | lab9/main.cpp:286-353 | against all-zero bits, `&` gives 0 and `\|`, `^` keep the value |
| SensorBuffer.WithOnes | lab9/main.cpp:286-319 | against all-one bits, `&` keeps the value and `\|` sets every bit |
| SensorBuffer.BitIdentities | lab9/main.cpp:286-353 | `x & 0 == 0`, `x & -1 == x`, `x \| 0 == x`, `x \| -1 == -1` and `x ^ 0 == x` for every `int` |
| SensorBuffer.BitwiseSwap | lab9/main.cpp:286-353 | a symmetric bit operator gives the same result with the operands swapped |
| SensorBuffer.BitCommutes | lab9/main.cpp:286-353 | `&`, `\|` and `^` are commutative |
| SensorBuffer.XorTwice | lab9/main.cpp:332-353 | applying `^ y` twice restores every `k`-bit value |
| SensorBuffer.SelfIdempotent | lab9/main.cpp:286-330 | `x & x` and `x \| x` are `x` |
| SensorBuffer.AndBuffer | lab9/main.cpp:286-296 | `&` with a buffer works element-wise over the common length; an empty operand gives the left buffer unchanged |
| SensorBuffer.OrBuffer | lab9/main.cpp:309-319 | `\|` with a buffer works element-wise over the common length |
| SensorBuffer.XorBuffer | lab9/main.cpp:332-342 | `^` with a buffer works element-wise over the common length |
| SensorBuffer.AndScalar | lab9/main.cpp:298-307 | `& v` applies to every element |
| SensorBuffer.OrScalar | lab9/main.cpp:321-330 | `\| v` applies to every element |
| SensorBuffer.XorScalar | lab9/main.cpp:344-353 | `^ v` applies to every element |
| SensorBuffer.XorInvolution | lab9/main.cpp:332-342 | `(b ^ o) ^ o == b` for buffers of `int` readings |
| SensorBuffer.AndOrIdempotent | lab9/main.cpp:286-319 | `b & b == b` and `b \| b == b` |
| SensorBuffer.EqualsValue | lab9/main.cpp:387-397 | `== v` holds exactly for a non-empty buffer whose every element is `v` |
| SensorBuffer.IsFalsy | lab9/main.cpp:419-429 | `!b` holds exactly when every element is 0, so an empty buffer counts as falsy |
| SensorBuffer.EqualsMeansZeroDifference | lab9/main.cpp:387-397 | every element equals `v` exactly when every element of `b - v` is 0 |
| SensorBuffer.SameAs | lab9/main.cpp:365-376 | `==` with a buffer holds exactly when name, scale and contents all agree |
| Garage.SetMake | hw6/hw6.cpp:67-75 | an empty make is rejected; only the make changes |
| Garage.SetModel | hw6/hw6.cpp:77-85 | an empty model is rejected; only the model changes |
| Garage.SetVehicleType | hw6/hw6.cpp:87-89 | the type is stored; nothing else changes |
| Garage.SetYear | hw6/hw6.cpp:91-98 | only a year in 0..2025 is stored |
| Garage.NewVehicle | hw6/hw6.cpp:31-41 | the vehicle takes the current counter as its ID and the counter advances; fields go through the setters from empty defaults |
| Garage.ConsecutiveIds | hw6/hw6.cpp:31-41 | two constructions in a row get increasing IDs |
| Garage.Upper | hw6/hw6.cpp:100-110 | upper-casing maps each character and keeps the length |
| Garage.LookupName | hw6/hw6.cpp:111-116 | the scan returns the type paired with the name in `changeMap`, or `UNKNOWN` when no entry matches |
| Garage.LookupType | hw6/hw6.cpp:120-125 | the scan returns the name paired with the type, or `"UNKNOWN"` |
| Garage.ChangeMapDistinct | hw6/hw6.cpp:130-139 | `changeMap` pairs distinct names with distinct types |
| Garage.StringToVehicleType | hw6/hw6.cpp:100-117 | the name is matched case-insensitively against `changeMap`; no match gives `UNKNOWN` |
| Garage.VehicleTypeToString | hw6/hw6.cpp:119-126 | a type maps to its `changeMap` name |
| Garage.EntryRoundTrip | hw6/hw6.cpp:100-139 | every `changeMap` entry maps each way to its partner |
| Garage.TypeNameRoundTrip | hw6/hw6.cpp:100-139 | converting a type to its name and back gives the same type |
| Garage.StringToVehicleTypeUpper | hw6/hw6.cpp:100-117 | the lookup ignores case |
| Garage.Resize | hw6/hw6.cpp:148-165 | the capacity grows by 100 default slots and the stored vehicles are kept |
| Garage.IndexOfId | hw6/hw6.cpp:167-174 | the result is the first stored index with that ID, or -1 when none has it |
| Garage.IndexFrom | hw6/hw6.cpp:167-174 | the same search from a given start |
| Garage.AddVehicle | hw6/hw6.cpp:192-197 | a full garage is resized first; the new vehicle is appended after the stored ones |
| Garage.UpdateVehicle | hw6/hw6.cpp:219-230 | an unknown ID fails and changes nothing; otherwise only that vehicle changes, through the four setters, keeping its ID |
| Garage.WithoutIndex | hw6/hw6.cpp:232-244 | later vehicles shift left by one and the freed last slot is reset to the default |
| Garage.WithoutIndexStored | hw6/hw6.cpp:232-244 | the stored vehicles are the old ones minus the deleted one, in order |
| Garage.DeleteVehicle | hw6/hw6.cpp:232-244 | an unknown ID fails and changes nothing; otherwise the first vehicle with that ID is removed by shifting |
| Garage.AddKeepsValid | hw6/hw6.cpp:192-197 | adding keeps IDs distinct and below the counter and unused slots default; the new ID is found at the old size |
| Garage.UpdateKeepsValid | hw6/hw6.cpp:219-230 | updating keeps the garage valid |
| Garage.DeleteKeepsValid | hw6/hw6.cpp:232-244 | deleting keeps the garage valid and the deleted ID is no longer found |
| DoctorSchedule.Clamp | hw8/main.cpp:138-180 | each setter's two `if`s clamp into `[lo, hi]` and keep in-range input |
| DoctorSchedule.SetName | hw8/main.cpp:107-116 | a name shorter than 3 characters becomes empty; only the name changes |
| DoctorSchedule.SetSpecialties | hw8/main.cpp:118-136 | a positive count and a non-null array copy the first `count` entries; otherwise the list is empty |
| DoctorSchedule.SetDay | hw8/main.cpp:138-148 | the day is clamped into 1..7 |
| DoctorSchedule.SetStart | hw8/main.cpp:150-164 | the start hour is clamped into 0..23, then forced below the end hour |
| DoctorSchedule.SetEnd | hw8/main.cpp:166-180 | the end hour is clamped into 0..23, then forced above the start hour |
| DoctorSchedule.NewDoctor | hw8/main.cpp:23-32 | every constructed doctor has a valid slot; the name, specialties and day follow their setters; the start hour is clamped and kept below the initial end hour 23, the end hour is clamped and kept above the start; so a pair `0 <= start < end <= 23` is stored exactly |
| DoctorSchedule.HourSettersKeepSlot | hw8/main.cpp:150-180 | either hour setter keeps `start < end` and the day valid |
| DoctorSchedule.HasSpecialty | hw8/main.cpp:182-189 | the search succeeds exactly when the specialty is in the list |
| DoctorSchedule.WorksAt | hw8/main.cpp:191-193 | on a valid slot, `worksAt` holds only on a weekday at an hour in 0..23, never on another day, and at both the start and the end hour (inclusive) |
| DoctorSchedule.WorksAtSetHours | hw8/main.cpp:150-193 | setting hours `0 <= s < e <= 23` with `s` below the current end hour, start first, makes `worksAt` on the preferred day hold exactly for hours in `[s, e]` |
| DoctorSchedule.WorksAtLateStart | hw8/main.cpp:150-193 | when `s` is at or past the current end hour, the start becomes the current end hour minus 1, and `worksAt` holds exactly from there to `e` |
| BirdSpeech.EncodeAppend | lab3/main.cpp:59-75 | one loop step appends the character, plus `P` and the character again for a vowel |
| BirdSpeech.ConvertToBirdSpeech | lab3/main.cpp:53-78 | the result is the piece-by-piece encoding, longer by two per vowel, and decoding it gives back the input |
| BirdSpeech.EncodeLength | lab3/main.cpp:53-78 | the encoding is longer by exactly two characters per vowel |
| BirdSpeech.DecodeEncode | lab3/main.cpp:53-78 | the transformation is invertible: decoding the encoding gives the input |
| PatientList.AllLongFrom | test2_sub2/main.cpp:14-26 | the scan succeeds exactly when every remaining name is longer than 3 characters |
| PatientList.IsArrayValid | test2_sub2/main.cpp:14-26 | a null or empty array passes; otherwise every name must be longer than 3 characters |
| PatientList.AcceptPatients | test2_sub2/main.cpp:50-70 | a positive count and a valid non-null array copy the first `count` names; otherwise the list is empty; every stored name is long enough |
| PatientList.NewDoctor | test2_sub2/main.cpp:37-77 | a name shorter than 3 becomes empty, and the patients are accepted as above |
| PatientList.SetPatientsNames | test2_sub2/main.cpp:116-145 | the old list is replaced by the accepted one; nothing else changes |
| PatientList.FirstIndex | test2_sub2/main.cpp:155-162 | the position of the first occurrence, or the length when absent |
| PatientList.RemovePatient | test2_sub2/main.cpp:147-185 | an empty list, empty value or absent value changes nothing; otherwise exactly the first occurrence is removed |
| PatientList.RemoveOneCopy | test2_sub2/main.cpp:147-185 | removal takes out exactly one copy of the value (multiset) |
| PatientList.ToText | test2_sub2/main.cpp:188-197 | the cast gives `(None)` for no patients, else the names joined with `-` |
| PatientList.Split | test2_sub2/main.cpp:188-197 | splitting a text at `-` yields at least one piece |
| PatientList.SplitPrefix | test2_sub2/main.cpp:188-197 | a dash-free prefix stays in the first piece |
| PatientList.SplitJoin | test2_sub2/main.cpp:188-197 | for dash-free names the cast's text determines the list (round trip) |
| WebsiteReport.NoNegativeFrom | test2_sub1/main.cpp:14-24 | the scan succeeds exactly when no remaining count is negative |
| WebsiteReport.IsArrayValid | test2_sub1/main.cpp:14-24 | a null or empty array passes; otherwise no count may be negative |
| WebsiteReport.AcceptDays | test2_sub1/main.cpp:45-70 | a positive day count and a valid non-null array are copied; otherwise the count is 0 and the array null |
| WebsiteReport.NewReport | test2_sub1/main.cpp:36-75 | the report is consistent and stores what `AcceptDays` accepts: valid day data is stored as the first `noDays` caller entries, none negative, and anything else gives no days; a title shorter than 3 becomes empty |
| WebsiteReport.SetVisitorsPerDay | test2_sub1/main.cpp:111-137 | the days are replaced as the constructor accepts them; title and type are kept |
| WebsiteReport.Copy | test2_sub1/main.cpp:78-91 | the copy holds the same days, and a count of 0 copies as the null array |
| WebsiteReport.Times | test2_sub1/main.cpp:139-155 | `*` as written: with days, the value is appended and counted; with a null array, it is stored but the count stays 0 |
| WebsiteReport.TimesNeverCountsFirstDay | test2_sub1/main.cpp:139-155 | starting with no days, `*` never records a day, however often it is applied, and a copy of its result holds the null array |
| WebsiteReport.TimesCounted | test2_sub1/main.cpp:139-155 | `*` with the count raised in both branches appends the value to the days |
| WebsiteReport.TimesCountedTwice | test2_sub1/main.cpp:139-155 | repeated corrected `*` appends every value in order |
| Book.Replace | lab6/lab6.cpp:108-146 | a null text, an empty one or one of 256 or more characters keeps the old value |
| Book.SetTitle | lab6/lab6.cpp:108-128 | the title is replaced by an acceptable one only; nothing else changes |
| Book.SetAuthor | lab6/lab6.cpp:130-146 | the author is replaced by an acceptable one only; nothing else changes |
| Book.SetYear | lab6/lab6.cpp:148-156 | only a year in 0..2025 is stored |
| Book.NewDefault | lab6/lab6.cpp:31-39 | the default book has null strings, year 0 and the next ID |
| Book.NewBook | lab6/lab6.cpp:41-56 | the book takes the next ID and keeps only acceptable fields, with null strings and year 0 otherwise |
| Book.NewBooks | lab6/lab6.cpp:41-56 | constructing a series makes one book per argument |
| Book.NewBooksIds | lab6/lab6.cpp:31-56 | IDs run consecutively from the counter, so they are distinct and increasing |
| Animal.At | lab10/main.cpp:89-95 | the read-only `[]` throws unless `0 <= index < length`, and otherwise gives that character |
| Animal.Store | lab10/main.cpp:98-104 | writing through `[]` throws under the same bounds; otherwise only that character changes |
| Animal.PreIncrement | lab10/main.cpp:167-170 | `++a` adds 1 to the age and yields the updated object |
| Animal.PostIncrement | lab10/main.cpp:178-182 | `a++` leaves the object incremented and yields a copy with the old age |
| Animal.PreDecrement | lab10/main.cpp:186-189 | `--a` subtracts 1 from the age and yields the updated object |
| Animal.PostDecrement | lab10/main.cpp:193-197 | `a--` leaves the object decremented and yields a copy with the old age |
| Animal.PlusInt | lab10/main.cpp:47-51 | `a + val` is a copy with `age + val` |
| Animal.IntPlus | lab10/main.cpp:228-233 | `val + a` is a copy with `age + val` |
| Animal.PlusProperties | lab10/main.cpp:47-51 | both forms of `+` agree, adding twice adds the sum, and `+ 1` / `+ -1` match increment and decrement |
| Animal.IncrementDecrementInverse | lab10/main.cpp:167-197 | an increment followed by a decrement, in either form, restores the object |
| Animal.Assign | lab10/main.cpp:23-29 | assignment, self-assignment included, leaves the source's name and age |
| Maze.ReachStep | hw11/main.cpp:57-69 | a passable neighbour of a reachable cell is reachable |
| Maze.CoveredAfterSkip | hw11/main.cpp:46-51 | skipping a visited or impassable position loses no pending neighbour |
| Maze.CoveredAfterExpand | hw11/main.cpp:57-69 | pushing the four neighbours covers every passable neighbour of the newly visited cell |
| Maze.WalkStaysInside | hw11/main.cpp:36-71 | a visited set closed under passable neighbours that holds the start of a walk holds its end |
| Maze.InInteriorCells | hw11/main.cpp:46-47 | every interior cell is counted by the termination measure |
| Maze.SkipKeepsInvariant | hw11/main.cpp:46-51 | skipping an out-of-interior, `#`, `M` or visited position keeps the search invariant |
| Maze.MarkKeepsInvariant | hw11/main.cpp:53-69 | marking a new passable cell keeps the invariant, whether it is the finish or its neighbours are pushed |
| Maze.MarkKeepsMarked | hw11/main.cpp:53 | marked cells stay passable, reachable and distinct |
| Maze.MarkKeepsFrontier | hw11/main.cpp:53-69 | the list of positions keeps covering the neighbours of marked cells |
| Maze.SearchStep | hw11/main.cpp:36-70 | one iteration never enters a position outside the interior, a `#`, an `M` or a visited cell; it marks a new cell or shortens the list, so the search terminates |
| Maze.HasValidPath | hw11/main.cpp:18-87 | the search returns true exactly when the finish is reachable from (1,1) by 4-neighbour moves through interior non-`#` non-`M` cells; it expands each cell at most once |
| Maze.GenerateLayout | hw11/main.cpp:99-110 | before any random terrain, every border cell is `#` and no interior cell is; (1,1) holds `P` for size >= 3; every other interior cell is `.` |
| Maze.LayoutPassable | hw11/main.cpp:99-110 | on a grid framed that way without monsters, the passable cells are exactly the interior |

## Left out

- Console I/O, menus, printing and diagnostic messages are left out. A rejected input is modelled as "value unchanged" or "fallback returned".
- Memory management is left out: `new`/`delete[]`, copy constructors, destructors, nulling of dangling pointers. Objects are immutable values, so a copy is the value itself.
- C++ `int` overflow is not modelled. Ages, IDs, counts, sensor readings and their `+ - * /` are unbounded integers. The bitwise operators are the exception: they act on an `int`'s 32-bit two's-complement form.
- `StringAsNumber` `printNumber` and `main` are left out. Its copy constructor and `operator=` are value copies.
- Additive.Add: the result is stated by value (`IntOf`). Because a `BigInt` is canonical, the value fixes the text (`BigNumber.IntOfInjective`).
- Additive.Sub: stated by value, as for `Add`.
- SensorBuffer: the `+ - * / & | ^` operators with their copy are one function each, because the copy does not change the result. `!=` is the negation of `SameAs`.
- SensorBuffer: `average` and the `< <= > >=` operators built on it are left out because they use floating point. The default constructor and `print` are left out as well.
- SensorBuffer.Create: the values `new int[size]` leaves uninitialized are a parameter.
- WebsiteReport: `operator()` (a float average) and the `totalReports` counter are left out.
- WebsiteReport.Times: on a report without days, the result is the local copy itself, holding `[v]` behind a count of 0. That holds only when the compiler elides the copy at `return copyObj;`, which C++ allows but does not require. Without elision the copy constructor nulls the array. `TimesNeverCountsFirstDay` shows the days are empty either way.
- Animal: the explicit casts, the call operators and the stream operators are left out. Floating point and I/O.
- Maze: `serialize`, the `Client` class and its game loop are left out (file I/O and console).
- Maze: the random finish and terrain of `generateMap` and its regenerate-until-solvable recursion are left out. The layout before them is `GenerateLayout`, and the solvability test is `HasValidPath`.
- Maze.HasValidPath: the visited array is a set of positions and the linked stack is a sequence. The search order is the code's.
- Maze.GenerateLayout: requires a size of at least 2. For size 1 the code writes `grid[1][1]` out of bounds.
- Garage: `readVehicle`, `printVehicles` and the menu are left out (output only).
- Book: getters, `greetFromBook` and the destructor are left out.

## Findings

| source | as written | input that shows it | evidently intended | confidence | as-written member | corrected member |
|---|---|---|---|---|---|---|
| test2_sub1/main.cpp:139-155 | `operator*` on a report whose array is null stores the value in a new one-element array but leaves `noDays` at 0; the next copy sees `noDays == 0` and drops the array | a report built with 0 days, then `r * 5 * 7`: the days stay empty | the first value is counted (`noDays` becomes 1), as in the other branch | high, not executed | WebsiteReport.Times, WebsiteReport.TimesNeverCountsFirstDay | WebsiteReport.TimesCounted, WebsiteReport.TimesCountedTwice |

A comment and the code disagree in one place, and the model follows the code: lab3/main.cpp:50 gives the example `"bine" => "biPInePE"`, but the code appends `'P'` and the vowel unchanged, giving `"biPinePe"`.
