# Verified model of the payment system's algorithms

This Dafny project models the parts of the payment system that compute something: the
streaming SHA-256 and HMAC, base64url and JSON web tokens, the user table that issues tokens,
the Luhn check, the transaction store with its binary file, the dashboard aggregates, the HTTP
request parser and route matcher, and the QR payload text. Each object or loop of the source is
a class or a method with the source's own fields, branches and loops, proved equal to a function
that says what it computes; lemmas then prove what that function is for.

| files | models |
|---|---|
| `Radix`, `Machine`, `Octets`, `Options`, `FindIf`, `Pairs`, `Spaces`, `Split`, `TextSearch`, `Decimal`, `Tally` | digit sequences as numbers, integer widths, bytes, searching a vector, keys and values, cutting and searching text, decimal text, sums per key |
| `BlockStream`, `FipsConstants`, `Fips180`, `Fips180Example`, `StreamingHash`, `Hmac` | `src/crypto` |
| `Base64`, `Base64Codec`, `Jwt`, `AuthService` | `src/auth` |
| `CreditCard` | `src/payment/CreditCard.cpp` |
| `TransactionBytes`, `TransactionFile`, `TransactionRepository`, `DashboardStats` | `src/persistence/TransactionRepository.cpp`, `src/backend/DashboardStats.cpp` |
| `HttpRequest`, `Router` | `src/backend/HttpServer.cpp` |
| `QRPayload` | `src/qr_sim/QRSimulator.cpp` |

`dafny verify dfyconfig.toml` checks everything.

## How the source is read

- Unsigned and signed 32- and 64-bit wrap-around is written out where the source relies on it: hash
  words and the bit counter, both base64 accumulators (the signed one in two's complement, as C++20
  defines its shifts), `long` in tokens, the length of the header section. The encoder's shifts are
  divisions by powers of two; an arithmetic right shift is a floor division.
- The bit string of a base64 text is the number it spells together with its length: encoding is a
  change from base 256 to base 64, with zero bits filled in at the end.
- A vector's size is a `size_t`: where the count in the file matters, lists are shorter than 2^64.
- Clocks are parameters. Where the source reads the clock twice, there are two parameters.
- The JSON library is a parameter with one assumption, `Jwt.Lossless`: parsing what was dumped gives
  the value back. Dumping may fail, as it does in the source for text that is not UTF-8; a user whose
  token cannot be made is in the table all the same.
- `save`, `remove` and `clear` take the mutex and call `saveToFile`, which takes it again
  (`src/persistence/TransactionRepository.cpp:27`, `src/persistence/TransactionRepository.cpp:138`); the mutex is not
  recursive. The model is of the meant behaviour, one lock held across both.
- The fate of the file is a parameter of each operation: it cannot be opened, only so many bytes pass,
  or all do. The source does not look at its stream after `write` (`src/persistence/TransactionRepository.cpp:143-169`),
  so `save` answers true for a file that lost its end; a run may contain such writes and such reads.
- A `read` that finds too little keeps the bytes there were and fails every later read. What it leaves
  unwritten is zero in a resized string and in the timestamp (`src/persistence/TransactionRepository.cpp:127`), the
  last length in `strLen`, and whatever an uninitialised variable held. The contents of the uninitialised
  variables are a parameter of every load, `Leftovers`; theorems hold for all of them.
- A token is accepted at the instant it expires (`src/auth/JWT.cpp:137`), where section 4.1.4 of RFC 7519
  would reject it. The model follows the code.
- `getRevenueByDay` ignores its `days` argument (`src/backend/DashboardStats.cpp:58`), and so does the model.

## What was found

- A request without header lines makes the length at `src/backend/HttpServer.cpp:176` wrap, and the body is
  read as headers. The header map is still right exactly when the body holds no colon followed by a
  space: `HttpRequest.EmptyHeadersExactly`.
  `HttpRequest.BodyHeaderExample` is such a request.
- A second `loadFromFile` without a file stores the sample ids again: `TransactionRepository.ReloadTwiceRepeats`.
  A load of a file that ends inside an id fills the id up with zeros and may so repeat another one:
  `TransactionRepository.CutIdRepeats`. Over a whole run ids stay distinct exactly when neither happens:
  `TransactionRepository.DistinctExactly`.
- A transaction file that lost its end is loaded without complaint, with the missing bytes made up:
  `TransactionFile.LostTimestampBytes`, and `TransactionFile.LoadsExactly` for every file. Which files leave
  nothing to uninitialised variables: `TransactionFile.DeterminedExactly`.
- `save`, `remove` and `clear` answer true although the file lost its end: exactly when the file was opened
  and not all bytes reached it (`TransactionRepository.TransactionRepository.SaveToFile`).
- A payload survives its QR text exactly when none of its texts has a colon: `QRPayload.RoundTripExactly`.
  Otherwise a reference can be read as the amount: `QRPayload.ColonExample`.
- The Luhn loop casts the length to `int`, and 2^32 characters of any kind are accepted: `CreditCard.CastAcceptsAnything`.
  The loop is the Luhn check at exactly the lengths below 2^31: `CreditCard.CastHarmlessExactly`.
- Among swaps of adjacent digits the Luhn check misses exactly 0 with 9, and among twin errors exactly three pairs.

## Model

| member | source | states |
|---|---|---|
| FipsConstants.PrimesInOrder | src/crypto/SHA256.cpp:7-24 | the numbers whose roots are taken are the primes from 2 on, none skipped |
| FipsConstants.RoundNumbersAreRoots | src/crypto/SHA256.cpp:7-24 | every round constant is the first 32 bits of the fraction of the cube root of its prime (section 4.2.2 of FIPS 180-4) |
| FipsConstants.InitialNumbersAreRoots | src/crypto/SHA256.cpp:36-43 | every initial state word is the first 32 bits of the fraction of the square root of its prime |
| Fips180.LoadIsBigEndian | src/crypto/SHA256.cpp:68-71 | the shift-and-or of four bytes is their big-endian number, for all bytes |
| Fips180.StoreUndoesLoad | src/crypto/SHA256.cpp:116-119 | storing a loaded word gives the four bytes back |
| Fips180.PadExactly | src/crypto/SHA256.cpp:91-108 | the padded message is the only one of whole blocks that is the message, the marker, the least number of zeros and the bit length modulo 2^64, most significant byte first |
| Fips180.Chooses | src/crypto/SHA256.cpp:27-27 | Ch takes the bit of y where x has a one and that of z elsewhere |
| Fips180.Votes | src/crypto/SHA256.cpp:28-28 | Maj takes the bit that two of the three have |
| Fips180Example.KnownAnswer | src/crypto/SHA256.cpp:65-122 | the hash of "abc", all 32 bytes, through every schedule word and every round |
| Fips180.PadInjective | src/crypto/SHA256.cpp:91-108 | two different messages of any lengths are never padded to the same bytes, although the length field is modulo 2^64 |
| BlockStream.FedMeaning | src/crypto/SHA256.cpp:49-59 | for any compression function: feeding bytes one at a time folds the whole blocks into the state, counts them, and leaves exactly the rest in the buffer |
| StreamingHash.CountRest | src/crypto/SHA256.cpp:94-94 | the counter plus the waiting bytes is the bit length of the whole message modulo 2^64 |
| StreamingHash.PadOneBlock | src/crypto/SHA256.cpp:95-108 | with at most 55 bytes waiting, one zero-filled block with the length completes the padded message |
| StreamingHash.PadTwoBlocks | src/crypto/SHA256.cpp:97-108 | with 56 to 63 bytes waiting, an extra block is needed and two blocks complete the padded message |
| StreamingHash.RunCalls | src/crypto/SHA256.cpp:35-122 | a new object driven through any sequence of update and digest calls, however the data is cut, answers each digest with the one-shot SHA-256 of the data accepted before the first digest |
| StreamingHash.EveryRun | src/crypto/SHA256.cpp:49-122 | the answers of the abstract object, a message and whether it is closed, for any hash function and from any state: each is the hash of the message and the data accepted before the first digest |
| StreamingHash.EveryDigest | src/crypto/SHA256.cpp:49-122 | the answers that `RunCalls` gives are all the same, the one-shot hash of the data accepted before the first digest |
| StreamingHash.HexInjective | src/crypto/SHA256.cpp:124-134 | no two byte strings share their hexadecimal text |
| StreamingHash.HexMeaning | src/crypto/SHA256.cpp:124-134 | the text has for every byte its two digits, high half first, from 0 to 9 and a to f |
| StreamingHash.Sha256.constructor | src/crypto/SHA256.cpp:35-47 | a new object has accepted nothing and is open |
| StreamingHash.Sha256.PrepareSchedule | src/crypto/SHA256.cpp:66-75 | the in-place array holds the recursive message schedule |
| StreamingHash.Sha256.RunRounds | src/crypto/SHA256.cpp:77-85 | eight registers rotated for 64 rounds hold the recursive round function's result |
| StreamingHash.Sha256.AddRegisters | src/crypto/SHA256.cpp:87-88 | the eight state words are increased modulo 2^32 by their registers |
| StreamingHash.Sha256.Transform | src/crypto/SHA256.cpp:65-89 | the state becomes the compression of the old state and the buffer (section 6.2.2 of FIPS 180-4) |
| StreamingHash.Sha256.Put | src/crypto/SHA256.cpp:52-57 | one byte keeps the streaming invariant and extends the message |
| StreamingHash.Sha256.Update | src/crypto/SHA256.cpp:49-63 | extends the message by the data, or does nothing once finalized |
| StreamingHash.Sha256.BeginPadding | src/crypto/SHA256.cpp:94-101 | after the marker, and the extra block where it is needed, one more block completes the padded message |
| StreamingHash.Sha256.FillZeros | src/crypto/SHA256.cpp:98-103 | zeros fill the buffer up to the given place and nothing before it changes |
| StreamingHash.Sha256.WriteLength | src/crypto/SHA256.cpp:105-107 | the last eight bytes are the big-endian digits of the bit length |
| StreamingHash.Sha256.Finalize | src/crypto/SHA256.cpp:91-110 | the state is the fold of the padded message, on both padding paths, and once only |
| StreamingHash.Sha256.StoreWord | src/crypto/SHA256.cpp:116-119 | four bytes of the result are the word, most significant first |
| StreamingHash.Sha256.Digest | src/crypto/SHA256.cpp:112-122 | answers the SHA-256 of every byte accepted, and closes the object |
| StreamingHash.Sha256.HexDigest | src/crypto/SHA256.cpp:124-134 | answers the hexadecimal text of that hash |
| StreamingHash.Hash | src/crypto/SHA256.cpp:136-140 | the one-call form gives the text of the one-shot hash |
| StreamingHash.HashBytes | src/crypto/SHA256.cpp:142-146 | the one-call form gives the one-shot hash |
| Hmac.HmacSha256 | src/crypto/HMAC.cpp:14-41 | two stateful hash objects compute section 2 of RFC 2104 for every key and message |
| Hmac.ZeroExtension | src/crypto/HMAC.cpp:22-24 | a key that fits a block agrees with each of its zero-extensions up to 64 bytes |
| Hmac.LongKey | src/crypto/HMAC.cpp:16-21 | a longer key agrees with its own digest used as key |
| Hmac.ShortKey | src/crypto/HMAC.cpp:22-40 | for a key of at most 64 bytes: the hash of the pad of key bytes and zeros against 0x5c, and of the hash of the pad against 0x36 and the data |
| Hmac.EmptyKey | src/crypto/HMAC.cpp:22-40 | the same for the empty key, whose pads are 64 equal bytes |
| Base64.Encode | src/auth/JWT.cpp:13-29 | the text has the ceiling of 8n/6 characters |
| Base64.Decode | src/auth/JWT.cpp:31-48 | any text decodes to the floor of 6m/8 bytes, m being its longest prefix in the alphabet |
| Base64.RoundTrip | src/auth/JWT.cpp:75-81 | decoding undoes encoding for every byte string of every length |
| Base64.ConverseRoundTrip | src/auth/JWT.cpp:75-81 | encoding undoes decoding exactly for texts in the URL alphabet whose length is not 1 modulo 4 and whose leftover bits are zero |
| Base64.EncodedIsCanonical | src/auth/JWT.cpp:50-59 | every encoded text is of that form, so it has no '+', '/', '=' or '.' |
| Base64.TableOrder | src/auth/JWT.cpp:14-14 | the characters of the encoding are those of the source's table, in its order |
| Base64.UrlEncodedAs | src/auth/JWT.cpp:13-59 | the text of a byte string is the URL alphabet's character for each six bits, zero bits behind the last |
| Base64.DashExample | src/auth/JWT.cpp:13-59 | fb ef ff is written with both characters of the URL alphabet |
| Base64.OneByteExample | src/auth/JWT.cpp:13-59 | one byte is two characters, without padding |
| Base64Codec.ByteEnters | src/auth/JWT.cpp:20-21 | although the accumulator wraps, its low bits are the bits still to be written |
| Base64Codec.SextetLeaves | src/auth/JWT.cpp:22-25 | writing a character moves six of those bits into the output |
| Base64Codec.SextetEnters | src/auth/JWT.cpp:40-41 | although the signed accumulator wraps, its low bits are the bits still to be written |
| Base64Codec.NoOverflow | src/auth/JWT.cpp:40-40 | the addition to the shifted accumulator never leaves 32 bits |
| Base64Codec.Base64Encode | src/auth/JWT.cpp:13-29 | the accumulator loop writes the input's number in base 64 |
| Base64Codec.BuildTable | src/auth/JWT.cpp:33-34 | the table gives each character's position and -1 for all others |
| Base64Codec.Base64Decode | src/auth/JWT.cpp:31-48 | the accumulator loop writes the number of the longest alphabet prefix in base 256 |
| Base64Codec.ToBase64Url | src/auth/JWT.cpp:50-59 | two characters are exchanged and the text ends before the first '=' |
| Base64Codec.FromBase64Url | src/auth/JWT.cpp:61-72 | the characters are exchanged back and the padding is completed |
| Base64Codec.Base64UrlEncode | src/auth/JWT.cpp:75-77 | the composition of the two loops is the URL encoding |
| Base64Codec.Base64UrlDecode | src/auth/JWT.cpp:79-81 | the composition of the two loops is the URL decoding |
| Split.JoinOfParts | src/auth/JWT.cpp:115-121 | joining the parts gives the text back |
| Split.PartsAreFree | src/auth/JWT.cpp:115-121 | no part contains the separator |
| Split.PartsOfConcat | src/auth/JWT.cpp:115-121 | the parts of two texts with a separator between are the parts of both |
| Split.PartsOfJoin | src/auth/JWT.cpp:115-121 | parts without a separator are found again after joining |
| Split.SplitAt | src/auth/JWT.cpp:115-121 | the loop computes exactly the parts |
| Jwt.CreateSignature | src/auth/JWT.cpp:83-87 | computes the encoded HMAC of the signing input |
| Jwt.Create | src/auth/JWT.cpp:89-110 | sets the three claims, encodes and signs, or fails where the library throws |
| Jwt.Verify | src/auth/JWT.cpp:112-147 | splits, compares the signature, decodes and checks exp and iss, with every failure giving nothing |
| Jwt.AcceptsExactly | src/auth/JWT.cpp:112-147 | accepts exactly a.b.signature with dot-free a and b, b decoding to the payload, exp not before now and iss as expected |
| Jwt.AcceptedWrittenOut | src/auth/JWT.cpp:112-147 | the same with every condition spelled out: the HMAC, the claims "exp" (64-bit integers, fractions cut off) and "iss" by their letters |
| Jwt.OtherIssuerRejected | src/auth/JWT.cpp:140-141 | a token made for one issuer is accepted for no other, at any time |
| Jwt.CreatedWrittenOut | src/auth/JWT.cpp:89-110 | the text of a created token: the header with HS256 and JWT, the three claims, and the encoded HMAC of both |
| Jwt.OtherPayloads | src/auth/JWT.cpp:99-102 | a null payload counts as an empty object, any other value that is no object throws |
| Jwt.ClaimsMeaning | src/auth/JWT.cpp:99-102 | the claims are the payload's members with iss, iat and exp set and nothing else changed |
| Jwt.LosslessIsPossible | src/auth/JWT.cpp:104-105 | the one assumption on the JSON library can be met by a library that dumps any two given values |
| Jwt.CreatedVerifies | src/auth/JWT.cpp:89-147 | a created token verifies to its claims up to and including iat plus the lifetime, and at no later time |
| Jwt.RejectionPersists | src/auth/JWT.cpp:134-138 | a token rejected at one time is rejected at every later time |
| FindIf.FirstIndex | src/auth/AuthService.cpp:150-152 | the first element that satisfies the condition, or the end |
| AuthService.UserIdInjective | src/auth/AuthService.cpp:105-106 | zero-padded decimal ids of different numbers differ |
| AuthService.SeededSound | src/auth/AuthService.cpp:31-42 | the seeded table has distinct ids and names, and its counter is ahead of its ids |
| AuthService.RunSound | src/auth/AuthService.cpp:83-175 | every run of register, login and delete keeps ids and names pairwise distinct and the counter ahead |
| AuthService.DeletedIdStaysFree | src/auth/AuthService.cpp:167-175 | a deleted id leads to nobody after any further run |
| AuthService.IdOverRun | src/auth/AuthService.cpp:149-154 | over every run an id leads to the same user until it is deleted, and from then on to nobody |
| AuthService.TokenOverRun | src/auth/AuthService.cpp:141-147 | a token resolves to the very user it was issued for exactly while it is not expired and the user not deleted, and to nobody otherwise |
| AuthService.LoginToken | src/auth/AuthService.cpp:44-81 | a token from login is one for the user with that name and password hash, whose id and role are in the answer |
| AuthService.RegisterToken | src/auth/AuthService.cpp:105-133 | a token from registration is one for the user just added, whose id was free |
| AuthService.SeededAdminLogsIn | src/auth/AuthService.cpp:31-81 | the seeded table is reachable and its administrator is not refused with the seeded password |
| AuthService.LoginTokenOverRun | src/auth/AuthService.cpp:44-147 | from every reachable table, the token of a login follows its user over every later run |
| AuthService.RegisterTokenOverRun | src/auth/AuthService.cpp:83-147 | from every reachable table, the token of a registration follows its user over every later run |
| AuthService.RegisteredCanLogIn | src/auth/AuthService.cpp:44-134 | whoever registered is not refused at login with the same name and password until deleted |
| AuthService.PasswordDecides | src/auth/AuthService.cpp:23-81 | over every run that does not delete an enabled user, login under that name is refused exactly when the SHA-256 of the tried password and the salt differs from that of the user's |
| AuthService.RegisteredPasswordDecides | src/auth/AuthService.cpp:44-134 | the same for whoever registered, from then on |
| AuthService.SeededPasswordDecides | src/auth/AuthService.cpp:31-81 | the same for each of the three seeded users, with their names, roles and passwords |
| AuthService.LoginRefused | src/auth/AuthService.cpp:47-56 | an unknown name and a disabled user are refused, each with its text |
| AuthService.RegistrationRefused | src/auth/AuthService.cpp:87-100 | which registrations are refused, with which text: a missing field, five characters or less, a name that is taken |
| AuthService.RegistrationAdds | src/auth/AuthService.cpp:102-133 | the added user, field by field, and the answer |
| AuthService.UserIdMeaning | src/auth/AuthService.cpp:105-106 | "user-" and the number with three digits at least and no zero in front of more |
| AuthService.TokenClaims | src/auth/AuthService.cpp:63-75 | a token's claims are the user's id, name, role and e-mail, the issuer and the two times of one day, and nothing else |
| AuthService.AuthService.constructor | src/auth/AuthService.cpp:17-21 | a new service holds the seeded table |
| AuthService.AuthService.SeedDefaultUsers | src/auth/AuthService.cpp:31-42 | three users and the counter at 4 |
| AuthService.AuthService.PasswordHash | src/auth/AuthService.cpp:23-25 | the hexadecimal SHA-256 of the salted password |
| AuthService.AuthService.Login | src/auth/AuthService.cpp:44-81 | the answer for unknown, disabled and mismatching users and for the right one; the table is unchanged |
| AuthService.AuthService.RegisterUser | src/auth/AuthService.cpp:83-134 | the answer of each check in its order, and the whole new table, also when token creation throws |
| AuthService.AuthService.ValidateToken | src/auth/AuthService.cpp:136-139 | true exactly when the token verifies |
| AuthService.AuthService.GetUserFromToken | src/auth/AuthService.cpp:141-147 | the user the sub claim leads to, nobody, or the exception of a missing claim |
| AuthService.AuthService.DeleteUser | src/auth/AuthService.cpp:167-175 | removes the user with the id and says whether there was one |
| CreditCard.ValidateLuhn | src/payment/CreditCard.cpp:14-33 | below 2^31 characters the right-to-left loop accepts exactly the non-empty digit strings whose position-weighted sum is 0 modulo 10; at any length it is that check of the characters the `int` index reaches |
| CreditCard.CastHarmlessExactly | src/payment/CreditCard.cpp:20-20 | the loop is the Luhn check of every text of a length if and only if the length is below 2^31 |
| CreditCard.CastAcceptsAnything | src/payment/CreditCard.cpp:20-20 | the concrete failure: 2^32 characters that are no digits are accepted |
| CreditCard.Sum | src/payment/CreditCard.cpp:17-30 | the sum is at most nine per digit, so the int holds it below 238609295 digits |
| CreditCard.SumOfTwoMore | src/payment/CreditCard.cpp:17-30 | two more digits on the right add the last one and the digits of the double of the one before |
| CreditCard.KnownNumbers | src/payment/CreditCard.cpp:14-33 | 79927398713 is accepted, and 79927398710 is not |
| CreditCard.IntSizeMeaning | src/payment/CreditCard.cpp:20-20 | the cast keeps a size modulo 2^32 within the range of int |
| CreditCard.SingleErrorDetected | src/payment/CreditCard.cpp:14-33 | changing any one digit of an accepted number makes it rejected |
| CreditCard.SwapDetected | src/payment/CreditCard.cpp:14-33 | swapping two unequal adjacent digits is undetected exactly for 0 and 9 |
| CreditCard.TwinErrorDetected | src/payment/CreditCard.cpp:14-33 | replacing two equal adjacent digits by two others is undetected exactly for three pairs |
| CreditCard.CheckDigitUnique | src/payment/CreditCard.cpp:14-33 | every digit prefix is completed by exactly one check digit |
| CreditCard.ValidateNumber | src/payment/CreditCard.cpp:46-65 | the number stage of validate: empty, 13 to 19 digits, Luhn |
| CreditCard.SeparatorsIgnored | src/payment/CreditCard.cpp:51-54 | text without digits may stand anywhere in the number |
| CreditCard.VerdictOfDigits | src/payment/CreditCard.cpp:46-65 | texts of digits are acceptable from 13 to 19 characters, and then exactly when the sum is 0 modulo 10 |
| CreditCard.EmptyExactly | src/payment/CreditCard.cpp:46-58 | only no text at all is empty; text without a digit has a bad length |
| CreditCard.VerdictSingleError | src/payment/CreditCard.cpp:46-65 | an acceptable number with one digit changed fails the Luhn check, separators and all |
| TransactionFile.Save | src/persistence/TransactionRepository.cpp:143-167 | the sequential writes produce the file format |
| TransactionFile.InputFile.Read | src/persistence/TransactionRepository.cpp:101-128 | a read overwrites the front of its buffer with what there is, and after one that finds too little none does anything |
| TransactionFile.Load | src/persistence/TransactionRepository.cpp:99-132 | for any contents of the uninitialised variables, the sequential reads build the list that `LoadsExactly` describes |
| TransactionFile.LoadRecord | src/persistence/TransactionRepository.cpp:104-131 | the branch-free reads of one record give the record that `RecordExactly` describes, and leave the stream behind it, failed or not |
| TransactionBytes.TakesBoth | src/persistence/TransactionRepository.cpp:107-128 | two reads one after the other, failed or not, are one read of both buffers |
| TransactionBytes.RecordExactly | src/persistence/TransactionRepository.cpp:104-131 | from any stream a record is read exactly when its bytes are what one single read leaves in a buffer of leftovers, carried lengths and zeros |
| TransactionBytes.LittleMeaning | src/persistence/TransactionRepository.cpp:143-167 | integers are written with their lowest byte first |
| TransactionBytes.RecordLayout | src/persistence/TransactionRepository.cpp:147-166 | the nine parts of a record in the order of the file |
| TransactionBytes.RecordExample | src/persistence/TransactionRepository.cpp:147-166 | one record byte by byte, with a negative time |
| TransactionFile.WholeExactly | src/persistence/TransactionRepository.cpp:104-131 | a record is read without a failure exactly when the bytes start with it, with any bytes in its texts, any 64-bit amount and time and any status value |
| TransactionFile.CutExactly | src/persistence/TransactionRepository.cpp:104-131 | a record is read from bytes that end inside it exactly when the fallback fills them up to it |
| TransactionFile.FileRoundTrip | src/persistence/TransactionRepository.cpp:90-170 | loading what was saved rebuilds the list, whatever follows it |
| TransactionFile.LoadsExactly | src/persistence/TransactionRepository.cpp:90-170 | for any contents of the uninitialised variables, a file loads to a list exactly when it starts with that list's bytes, when it ends inside the list's last record and fills up to it, or when it has no count and the list is empty |
| TransactionFile.DeterminedExactly | src/persistence/TransactionRepository.cpp:99-131 | a file loads to one list whatever the uninitialised variables hold exactly when it starts with that list's bytes, ends behind the status of its last record, or has no count |
| TransactionFile.LostTimestampBytes | src/persistence/TransactionRepository.cpp:127-131 | a written file without some of its last eight bytes loads with the last timestamp's low bytes, so to the same list exactly when these hold the timestamp |
| TransactionFile.CutIdLoads | src/persistence/TransactionRepository.cpp:107-131 | a written file that ends inside an id is loaded with zeros for the rest of that id |
| TransactionFile.CutFileLoads | src/persistence/TransactionRepository.cpp:99-169 | from any beginning of a written file come the written transactions in order, as far as they come; only the last may be one that was filled up |
| TransactionRepository.FoundAfterSave | src/persistence/TransactionRepository.cpp:26-56 | after a save the id finds the new transaction and every other id what it found before |
| TransactionRepository.FoundAfterRemove | src/persistence/TransactionRepository.cpp:71-82 | after a removal the id finds nothing and every other id what it found before |
| TransactionRepository.SavedRefines | src/persistence/TransactionRepository.cpp:26-39 | save is a map update that keeps the place of a known id and appends a new one |
| TransactionRepository.RemovedRefines | src/persistence/TransactionRepository.cpp:71-82 | remove deletes from the map and keeps the order of the rest |
| TransactionRepository.ListIsLedger | src/persistence/TransactionRepository.cpp:29-36 | the list is the map written out in the order of its ids |
| TransactionRepository.LoadedDistinct | src/persistence/TransactionRepository.cpp:99-131 | a load from any beginning of a file written with distinct ids has distinct ids exactly when the file does not end inside an id that its filled-up form repeats |
| TransactionRepository.DistinctExactly | src/persistence/TransactionRepository.cpp:16-135 | in every run of save, remove, clear, load and reopen, with files that cannot be opened, writes and reads that stop half way and any contents of uninitialised variables, ids stay distinct exactly when no load without a file meets a sample id and no load ends inside an id that it thereby repeats |
| TransactionRepository.CutIdRepeats | src/persistence/TransactionRepository.cpp:107-131 | the concrete failure: a save that gets as far as the first character of the id `ab`, and a reopening, repeat the id of `a` and a zero byte |
| TransactionRepository.RunRefines | src/persistence/TransactionRepository.cpp:16-170 | every such run with distinct ids agrees, in memory and in the bytes of the file, with a plain map that remembers the insertion order |
| TransactionRepository.Replay | src/persistence/TransactionRepository.cpp:16-170 | real objects on one file, one after the other, driven through any operations are the run's state |
| TransactionRepository.ReopeningIsInvisible | src/persistence/TransactionRepository.cpp:16-24 | while no file operation fails, closing and reopening anywhere in a run change nothing, nor does loading once the file holds the list or something was written |
| TransactionRepository.ReloadKeepsDistinct | src/persistence/TransactionRepository.cpp:93-97 | a load without a file keeps ids distinct exactly when no sample id is in use |
| TransactionRepository.ReloadTwiceRepeats | src/persistence/TransactionRepository.cpp:93-97 | a second load without a file repeats ids |
| TransactionRepository.SamplesDistinct | src/persistence/TransactionRepository.cpp:172-193 | the sample ids are distinct |
| TransactionRepository.SampleList | src/persistence/TransactionRepository.cpp:172-193 | the ids, amounts, statuses and ages of the demo transactions |
| TransactionRepository.TransactionRepository.constructor | src/persistence/TransactionRepository.cpp:16-20 | a new object holds what the bytes of the file load to, or the samples without a file |
| TransactionRepository.TransactionRepository.LoadFromFile | src/persistence/TransactionRepository.cpp:90-135 | replaces the list by what the bytes that pass load to, or adds the samples to it |
| TransactionRepository.TransactionRepository.SaveToFile | src/persistence/TransactionRepository.cpp:137-170 | true exactly when the file was opened, and then the file holds exactly the list in memory if and only if all bytes reached it |
| TransactionRepository.TransactionRepository.Save | src/persistence/TransactionRepository.cpp:26-39 | the new memory and file for every fate of the write; after true they agree if and only if all bytes reached the file |
| TransactionRepository.TransactionRepository.FindById | src/persistence/TransactionRepository.cpp:41-51 | the first transaction with the id |
| TransactionRepository.TransactionRepository.Remove | src/persistence/TransactionRepository.cpp:71-82 | the new memory and file for every fate of the write; false for an unknown id |
| TransactionRepository.TransactionRepository.Clear | src/persistence/TransactionRepository.cpp:84-88 | empties the list; what the file holds for every fate of the write |
| TransactionRepository.TransactionRepository.Close | src/persistence/TransactionRepository.cpp:22-24 | writes the list a last time, as far as the bytes pass |
| TransactionRepository.ReopenRepository | src/persistence/TransactionRepository.cpp:16-24 | destruction and construction together are one step of the run |
| Tally.AccumulatedMeaning | src/backend/DashboardStats.cpp:97-108 | an accumulating map holds exactly the keys that occur, each with the sum of its own weights |
| Tally.TotalIsSum | src/backend/DashboardStats.cpp:88-108 | the values of the map add up to all weights |
| Tally.OrderIrrelevant | src/backend/DashboardStats.cpp:88-108 | entries in any order accumulate to the same map |
| DashboardStats.GetStats | src/backend/DashboardStats.cpp:10-28 | the counters and the map of one pass over the list |
| DashboardStats.GetRevenueByDay | src/backend/DashboardStats.cpp:58-74 | the revenue per day of the successful transactions |
| DashboardStats.GetTransactionsByStatus | src/backend/DashboardStats.cpp:107-113 | the number of transactions per status name |
| DashboardStats.StatsMeaning | src/backend/DashboardStats.cpp:19-24 | the volume is the amount of every transaction; status 0 counts as successful, 8 as refunded, every other as failed |
| DashboardStats.MapsMeaning | src/backend/DashboardStats.cpp:24-113 | what the maps hold for a method, a status name and a day: successful amounts on the day of their own time stamp |
| DashboardStats.StatusNames | src/backend/DashboardStats.cpp:112-112 | the names of the statuses in order, no two alike, and "Unknown" for the rest |
| DashboardStats.OutcomesCoverList | src/backend/DashboardStats.cpp:21-23 | successful, failed and refunded add up to the length of the list |
| DashboardStats.CountMapsCoverList | src/backend/DashboardStats.cpp:88-113 | the counts per method and per status each add up to the length of the list |
| DashboardStats.RevenueCoversSuccess | src/backend/DashboardStats.cpp:58-74 | daily revenues add up to the amount of the successful transactions, whatever the calendar |
| DashboardStats.QueriesIgnoreOrder | src/backend/DashboardStats.cpp:10-121 | every query gives the same sums and the same map for every order of the list |
| DashboardStats.SaveChangesByDifference | src/backend/DashboardStats.cpp:10-121 | one save changes every sum by exactly the new transaction's share minus the replaced one's |
| DashboardStats.SaveChangesMap | src/backend/DashboardStats.cpp:58-113 | one save changes every map likewise, and a key is there afterwards exactly when another transaction or the new one mentions it |
| DashboardStats.CountStaysWhilePositive | src/backend/DashboardStats.cpp:88-113 | where transactions are counted, a key stays exactly while its count is positive: the last entry of a method disappears |
| HttpRequest.ParseHeaders | src/backend/HttpServer.cpp:177-188 | the header loop: line ends, lines without a colon, the last duplicate wins |
| HttpRequest.ProcessRequest | src/backend/HttpServer.cpp:158-190 | the parse of any text, with the wrapping header length and the bad-request case |
| HttpRequest.RenderedIsParsed | src/backend/HttpServer.cpp:158-193 | method, path, header map and body of every well-formed request with a header line are recovered, for any body |
| HttpRequest.OneHeaderRequest | src/backend/HttpServer.cpp:158-193 | the same for one header, letter by letter |
| HttpRequest.BadRequestExactly | src/backend/HttpServer.cpp:158-166 | a text is refused exactly when it has no line break |
| HttpRequest.NoBlankLine | src/backend/HttpServer.cpp:174-190 | without a blank line there are neither headers nor a body |
| HttpRequest.AnySpacing | src/backend/HttpServer.cpp:167-171 | method and path are the first two words, whatever white space surrounds them |
| HttpRequest.BodyReadAsHeaders | src/backend/HttpServer.cpp:174-189 | without header lines the lines of the body become the headers |
| HttpRequest.EmptyHeadersExactly | src/backend/HttpServer.cpp:174-189 | without header lines the header map is empty exactly when the body has no colon followed by a space |
| HttpRequest.BodyBecomesHeaders | src/backend/HttpServer.cpp:174-189 | a body of header lines gives the very map the lines would give in their proper place |
| HttpRequest.BodyHeaderExample | src/backend/HttpServer.cpp:174-189 | a request without header lines and with the body `a: b` has the header `a` |
| Router.CompileTemplate | src/backend/HttpServer.cpp:228-250 | the loop over a template yields its literals, groups and parameter names |
| Router.CompiledPrinted | src/backend/HttpServer.cpp:228-250 | compiling the text of a template gives its tokens back |
| Router.CompiledExactly | src/backend/HttpServer.cpp:228-250 | a pattern compiles to exactly the tokens whose text it is, and to none if there are none |
| Router.GreedySound | src/backend/HttpServer.cpp:254-263 | what the matcher reports are non-empty, slash-free captures that rebuild the path |
| Router.GreedyComplete | src/backend/HttpServer.cpp:254-256 | the backtracking matcher finds a match whenever there is one |
| Router.GreedyExactly | src/backend/HttpServer.cpp:254-263 | the matcher reports exactly the match that beats every match: the first capture is the longest possible, then the next, for any template |
| Router.MatchUnique | src/backend/HttpServer.cpp:254-263 | when every group is followed by a slash or the end, there is at most one match |
| Router.RouteMatchExactly | src/backend/HttpServer.cpp:252-265 | a route matches exactly when some filling of its template gives the path |
| Router.CapturesRebuildPath | src/backend/HttpServer.cpp:254-264 | the parameters of any match come from captures that rebuild the path |
| Router.FilledIsMatched | src/backend/HttpServer.cpp:207-264 | a template with distinct, separated names, filled with values free of '/' and '?', binds exactly those values, with or without a query |
| Router.QueryRead | src/backend/HttpServer.cpp:216-225 | a query string gives back the parameters it was written from, the last of equal keys winning |
| Router.TargetRead | src/backend/HttpServer.cpp:207-225 | path and query are split at the question mark, and the query gives its parameters back |
| Router.TargetPlain | src/backend/HttpServer.cpp:207-225 | without a question mark there is no parameter |
| Router.FilledIsAnswered | src/backend/HttpServer.cpp:195-277 | a template filled with values, with a query behind it, is answered by its route unless an earlier one wants it, with exactly the values and the query's parameters |
| Router.RouteRequest | src/backend/HttpServer.cpp:195-277 | preflight, the first registered route that serves the request with its parameters and those of the query, or not found |
| QRPayload.Encode | src/qr_sim/QRSimulator.cpp:7-12 | the prefix, three texts and the amount, separated by colons |
| QRPayload.Decode | src/qr_sim/QRSimulator.cpp:14-33 | the prefix test, the split that drops an empty end, the field count and the amount |
| QRPayload.LongRoundTrip | src/qr_sim/QRSimulator.cpp:30-31 | every 64-bit amount, the most negative included, is read back as written |
| QRPayload.AmountRead | src/qr_sim/QRSimulator.cpp:30-31 | white space, a sign or none, and digits are read as the amount, what follows is ignored; no digit or too large a number throws |
| QRPayload.AmountWritten | src/qr_sim/QRSimulator.cpp:7-12 | an amount is written with a minus sign if negative, with no plus sign and no leading zero |
| QRPayload.EncodedExample | src/qr_sim/QRSimulator.cpp:7-12 | the text of one payload, letter by letter |
| QRPayload.DecodedExactly | src/qr_sim/QRSimulator.cpp:14-33 | a text is a payload exactly when it is the prefix and four or more fields between colons, the fourth of them an amount |
| QRPayload.DecodedIsColonFree | src/qr_sim/QRSimulator.cpp:14-33 | nothing decoded has a colon in its texts |
| QRPayload.RoundTripExactly | src/qr_sim/QRSimulator.cpp:7-33 | decoding gives the payload back exactly when its three texts have no colon |
| QRPayload.ColonMovesFields | src/qr_sim/QRSimulator.cpp:7-33 | with a colon in the merchant id, a reference that is a number is read as the amount |
| QRPayload.ColonExample | src/qr_sim/QRSimulator.cpp:7-33 | the merchant id `a:b` with reference 7 and amount 5 is read as an amount of 7 |

## Left out

- Sockets, threads, the web server's route handlers, the terminal interface, loggers and `main.cpp`: input, output and wiring.
- `SQLiteRepository` and `MySQLWrapper`: their behaviour is in foreign libraries.
- The JSON library and `std::regex`: the first is a parameter, the second the two constructs the templates use; floating-point JSON numbers are reals, and `long` other than 64 bits is not modelled.
- `findByDateRange`, `getRecentTransactions` and `getTransactionsByMethod`: a filter, a sort for display, and the map `GetStats` already holds.
- `validate` after the number stage, `process`, `refund` and the other payment methods: simple branches.
- `Money::fromDollars` and `toDollars`, and the success rate: floating point.
- Router.CompileTemplate: a template with a brace that is never closed is a route that is skipped, since its text is not a regular expression; how a regular-expression engine words the error is not modelled.
- TransactionFile.Load: reading an uninitialised variable gives some value, the same one at each reading; a length that no memory can hold, at which `resize` throws, builds its string here.
- TransactionRepository.TransactionRepository.Save: concurrent callers are not modelled; of a write that fails, the beginning reaches the file.
- DashboardStats.GetStats: sums are mathematical integers and equal the source's while they stay within its 64-bit and 32-bit counters.
- AuthService.AuthService.RegisterUser: the counter is a mathematical integer; a service that registers 2^63 users is not modelled.
- Jwt.CreatedVerifies: the sum of clock and lifetime is assumed to fit a 64-bit integer, as it must in the source, where its overflow is undefined.
- CreditCard.ValidateLuhn: characters are ASCII, a digit test on negative ones being undefined in the source; so are the sum from 238609295 digits on, which is a mathematical integer here, and the index of exactly 2^31 characters (modulo 2^32), where the loop is skipped here.
- HttpRequest.RenderedIsParsed: the text is shorter than 2^63 bytes, as every string of the source is.
- QR picture drawing, random ids and the cryptographic strength of the hash.
