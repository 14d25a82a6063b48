# Verified models of the bundled Crypto++ algorithms

The server in this repository carries its own copy of Crypto++ under `project/cryptopp`. Many of its
algorithms rewrite a simple definition into a fast, stateful form: signed windows instead of repeated
addition, lookup tables instead of bit-by-bit multiplication, ring buffers and interrupted calls instead of
whole messages. This project models those forms in Dafny and proves that each computes what the simple
definition says, for all inputs and over all runs.

| file | what it models |
|---|---|
| `Arithmetic`, `NumberTheory`, `Gf2Polynomials`, `AbelianGroups`, `BitStrings`, `Bytes`, `Sequences`, `Wrappers`, `Sinks` | the mathematics and the plain data the models share |
| `WindowSlider`, `SimultaneousMultiply`, `CascadeMultiply`, `ExponentHeap`, `GeneralCascade`, `FixedBasePrecomputation` | scalar multiplication in an abelian group (`algebra.cpp`, `eprecomp.cpp`) |
| `ParallelInvert`, `ProjectiveDoubling`, `EllipticMultiply` | batched inversion, doubling without division and scalar multiplication on an elliptic curve (`ecp.cpp`) |
| `BlockQueue`, `BufferedInput`, `StreamTransformationFilter`, `MeterFilter`, `MeterRuns` | the buffering, padding and range-skipping filters (`filters.cpp`) |
| `BasePacking`, `BaseNEncoder`, `BaseNDecoder`, `Grouper`, `BaseNRoundTrip`, `BaseNNumbers` | the base-2^k filters, interruptible at every output (`basecode.cpp`, `fltrimpl.h`) |
| `AuthenticatedCipher`, `AuthenticatedRuns`, `AuthenticatedMessages`, `AuthenticatedSafety` | the protocol of authenticated encryption (`authenc.cpp`) |
| `Gcm`, `GcmField`, `Gcm2K`, `Cmac` | GHASH by tables (sections 6.3 and 6.4 of NIST SP 800-38D) and CMAC (RFC 4493) |
| `AsnLength`, `AsnOid`, `AsnUnsigned`, `AsnReencode` | ASN.1 codecs and the re-encoder of indefinite lengths (ITU-T X.690) |
| `Gf2_32`, `Gf2Irreducible`, `Esign`, `BlumBlumShub`, `Adler32` | arithmetic in GF(2^32) and the irreducibility of its default polynomial, the ESIGN trapdoor, random access into a Blum Blum Shub stream, Adler-32 (RFC 1950) |

Code that changes state is modelled by methods, classes and arrays; each is tied by its postcondition to a
function of the old state, and the lemmas say what those functions are, in closed form or by what determines them. `Integer` is `nat` or `int`. Word sizes
are written out where they matter (GF(2^32), GCM words, length octets, OID arcs, Adler-32). Exceptions are
results. An attachment that may block is a sink with a script of booleans, one for each call, so that
statements over all scripts cover every pattern of blocking and retry.

Some findings, each with its exact condition:

- CMAC subkeys: for 32-byte blocks `MulU` reduces by x^256 + x^10 + x^5 + x + 1, which x^2 + x + 1 divides, where the
  field has x^256 + x^10 + x^5 + x^2 + 1; for blocks of odd size it leaves the first byte alone. It doubles exactly if,
  for an even size, the size is not 32 or no bit is shifted out, and, for an odd size, the first byte is zero
  (`Cmac.MulU`, `Cmac.AddedPolynomialReducible`, `Cmac.TopBitIsNotDoubled`). It throws exactly for an unsupported size
  with a bit shifted out of the bytes that make up pairs, counted from the end.
- ESIGN: if a draw r or the exponent e has a factor in common with p, then s = r is returned. So an accepted draw is
  inverted exactly if r and e are coprime to p or r is a preimage already; the draw 0 is inverted only for x = 0, and
  is accepted for others (`Esign.AcceptedIsPreimage`, `Esign.ZeroDraw`, `Esign.ZeroDrawFails`).
- Authenticated ciphers: message data refused for its length is counted all the same, and footer data counts as header
  until message data has been accepted. A tag is that of the strings as they were given exactly if the text is
  within the maximum and there was a call of `ProcessData` or no footer (`AuthenticatedMessages.TagOfGivenStrings`).
- Zero padding: forward then inverse gives the message back exactly when it fills whole blocks, or, with ciphertext
  stealing, when it is empty or not shorter than the minimum.
- Skip ranges: a range is dropped only while bytes of its message are left, and one that stays at the front keeps those
  of all later messages from being looked at. So a run of messages is cut down to the bytes outside the ranges exactly
  if every message with a byte in a range comes after messages all of whose ranges start and end within them, none
  following one that ends with the message (`MeterRuns.RunObeysRanges`). Ranges of bytes 0-2 and 1-2 of a message of
  three bytes break this: byte 0 of the next message passes, though it is to be skipped
  (`MeterRuns.RunThatLosesARange`).
- `ECP::SimultaneousMultiply` needs positive exponents: exactly for zero it has no windows, and its cascade reads past an
  empty range (`EllipticMultiplication.ServeWindows`). `ECP::ScalarMultiply` sends zero another way.
- OIDs come back exactly when the second arc is below 40 and the first two arcs fit one octet.
- `BERDecodeUnsigned` with its default bound refuses values of 64-bit types above 0xffffffff; a BOOLEAN comes
  back as 0 or 255; an indefinite length counts as length 0 (`AsnUnsigned.IndefiniteIsZero`). The content is read
  without sign and need not be minimal: it is accepted exactly if its value fits the type and the range
  (`AsnUnsigned.AnyContent`).
- `DERReencode`: a primitive element of indefinite length inside another fails, but an empty element has gone out by
  then, and up to two octets behind it are lost (`AsnReencode.RefusedChild`).

## Model

| member | source | states |
|---|---|---|
| WindowSliders.WindowSlider.FindNextWindow | project/cryptopp/algebra.cpp:220-248 | the signed odd window taken, shifted to its position, plus what the slider still holds is what it held before; finished exactly when nothing is left |
| WindowSliders.PositiveWindow | project/cryptopp/algebra.cpp:236-247 | the low bits and the rest make up the exponent when the window is taken with a plus sign |
| WindowSliders.NegativeWindow | project/cryptopp/algebra.cpp:240-245 | the same when the window is taken with a minus sign and the modulus is carried into the rest |
| WindowSliders.NextWindowBounded | project/cryptopp/algebra.cpp:220-248 | carries do not push windows beyond one bit above the exponent, so the slider comes to an end |
| SimultaneousMultiplication.DigitSumBySuffixes | project/cryptopp/algebra.cpp:300-314 | the sum of (2k+1) times bucket k is twice the sum of the suffix sums from 1 on plus the whole sum |
| SimultaneousMultiplication.CombineBuckets | project/cryptopp/algebra.cpp:300-314 | the pass over the buckets yields the sum of (2k+1) times bucket k |
| SimultaneousMultiplication.AbsorbWindow | project/cryptopp/algebra.cpp:281-289 | the bucket index is in range, and buckets and slider still make up the exponent |
| SimultaneousMultiplication.ServeWindows | project/cryptopp/algebra.cpp:272-298 | the loop ends with every exponent entirely in its buckets |
| SimultaneousMultiplication.SimultaneousMultiply | project/cryptopp/algebra.cpp:256-315 | results[i] is exponents[i] times the base by repeated addition, for every abelian group, with or without fast negation |
| SimultaneousMultiplication.ScalarMultiply | project/cryptopp/algebra.cpp:91-96 | exponent times base by repeated addition |
| CascadeMultiplication.BuildTable | project/cryptopp/algebra.cpp:104-130 | every entry whose power1 or power2 is odd is present and holds power1 x + power2 y, for all three table sizes |
| CascadeMultiplication.StripZeros | project/cryptopp/algebra.cpp:146-152 | common factors of two are taken out, one power is left odd, and squaresBefore does not underflow |
| CascadeMultiplication.EndWindow | project/cryptopp/algebra.cpp:143-167 | the result stands for both exponents down to this bit, reading only entries that were filled |
| CascadeMultiplication.CascadeScalarMultiply | project/cryptopp/algebra.cpp:98-171 | e1 x + e2 y by repeated addition |
| ExponentHeaps.MakeHeap | project/cryptopp/algebra.cpp:185-185 | a heap by exponent, with the same terms |
| ExponentHeaps.PopHeap | project/cryptopp/algebra.cpp:186-186 | the largest term is last, the others are a heap, and the terms are the same |
| ExponentHeaps.PushHeap | project/cryptopp/algebra.cpp:199-199 | the last term joins the heap, and the terms are the same |
| GeneralCascade.EuclidValue | project/cryptopp/algebra.cpp:190-197 | moving q times the last base into the first and keeping the remainder does not change the sum |
| GeneralCascade.Reduce | project/cryptopp/algebra.cpp:188-200 | one turn keeps the sum and the heap and strictly decreases the total of the exponents |
| GeneralCascade.GeneralCascadeMultiplication | project/cryptopp/algebra.cpp:173-205 | the sum of exponent times base over all terms |
| FixedBase.FixedBasePrecomputation.SetBase | project/cryptopp/eprecomp.cpp:13-25 | the stored bases start with the new base, converted if need be, and the others are kept when it is the same |
| FixedBase.FixedBasePrecomputation.Precompute | project/cryptopp/eprecomp.cpp:27-41 | base i is the i-th power of the exponent base times the base |
| FixedBase.NextDigit | project/cryptopp/eprecomp.cpp:76-87 | one digit, borrowed and negated or not, and what is left make up the exponent; the digit is not negative |
| FixedBase.FixedBasePrecomputation.PrepareCascade | project/cryptopp/eprecomp.cpp:68-89 | the digits are not negative and their weighted sum is exponent times base |
| FixedBase.FixedBasePrecomputation.Exponentiate | project/cryptopp/eprecomp.cpp:91-97 | exponent times base by repeated addition |
| FixedBase.FixedBasePrecomputation.CascadeExponentiate | project/cryptopp/eprecomp.cpp:99-109 | the sum of the two products |
| ParallelInversion.InvertPair | project/cryptopp/ecp.cpp:268-281 | from the inverse of the product, both elements are replaced by their inverses, zero or not |
| ParallelInversion.ParallelInvert | project/cryptopp/ecp.cpp:251-286 | every element is replaced in place by its inverse, zeros staying zero |
| EllipticDoubling.TangentMeets | project/cryptopp/ecp.cpp:236-249 | the line through a point of the curve with the slope of the source meets the curve there twice and once more at the first coordinate of the double, as an identity of polynomials, over every field with halves |
| EllipticDoubling.DoubleIsReflected | project/cryptopp/ecp.cpp:236-249 | the double is that third point with the opposite sign, so it is on the curve |
| EllipticDoubling.DoubleIsIdentity | project/cryptopp/ecp.cpp:236-238 | doubling gives the identity exactly for points that are their own inverse |
| EllipticDoubling.NegatedOpposite | project/cryptopp/ecp.cpp:206-217 | the inverse has the same x and the opposite y, and is on the curve |
| EllipticDoubling.DoublesThePoint | project/cryptopp/ecp.cpp:317-333 | over every field with halves, the formulas without division give the coordinates of the double, for the identity and points of order two as well |
| EllipticDoubling.ProjectiveDoubling.constructor | project/cryptopp/ecp.cpp:300-315 | stands for the point given, the two cached factors making up a z^4 |
| EllipticDoubling.ProjectiveDoubling.Double | project/cryptopp/ecp.cpp:317-333 | after normalisation, the point that `ECP::Double` computes; the cached factors make up a z^4 again |
| EllipticMultiplication.TakeWindow | project/cryptopp/ecp.cpp:407-411 | the windows taken, at their bases, and what the slider still holds make up the exponent |
| EllipticMultiplication.Sweep | project/cryptopp/ecp.cpp:395-414 | in one pass over the exponents every window that starts here is taken, and every base is the power of two for its position times the point |
| EllipticMultiplication.ServeWindows | project/cryptopp/ecp.cpp:374-421 | the loop ends with every exponent in windows and every base a power of two times the point; there are no windows exactly for exponent zero |
| EllipticMultiplication.ConvertAll | project/cryptopp/ecp.cpp:423-434 | one batched inversion gives the affine coordinates of all bases, the identity staying so |
| EllipticMultiplication.TermsSum | project/cryptopp/ecp.cpp:439-455 | the sum over the terms of the cascade is the sum of the windows times the point |
| EllipticMultiplication.SimultaneousMultiply | project/cryptopp/ecp.cpp:362-458 | results[i] is exponents[i] times the point by repeated addition, for every curve whose points are an abelian group and all positive exponents |
| EllipticMultiplication.ScalarMultiply | project/cryptopp/ecp.cpp:352-360 | exponent times the point by repeated addition, for every exponent |
| BlockQueues.RingDrop | project/cryptopp/filters.cpp:259-282 | moving the start of the ring drops exactly the oldest bytes |
| BlockQueues.RingAppend | project/cryptopp/filters.cpp:297-310 | writing behind the end, wrapped or not, appends the bytes |
| BlockQueues.BlockQueue.GetBlock | project/cryptopp/filters.cpp:259-271 | takes exactly one block off the front of the queue, if there is one |
| BlockQueues.BlockQueue.GetContigousBlocks | project/cryptopp/filters.cpp:273-282 | takes as many bytes off the front as are asked for, held, and left up to the end of the buffer |
| BlockQueues.BlockQueue.GetAll | project/cryptopp/filters.cpp:284-295 | returns the whole contents in order |
| BlockQueues.BlockQueue.Put | project/cryptopp/filters.cpp:297-310 | appends the input |
| BufferedInput.FilterWithBufferedInput.Put | project/cryptopp/filters.cpp:348-422 | the calls made and the bytes held back conserve what was received; NextPut gets whole blocks only; the queue never overflows |
| BufferedInput.FilterWithBufferedInput.MessageEnd | project/cryptopp/filters.cpp:424-437 | the calls for the message are complete |
| BufferedInput.FilterMessage | project/cryptopp/filters.cpp:348-439 | for every split of a message into Put calls, the calls made are complete for the whole message |
| BufferedInput.CompleteConserves | project/cryptopp/filters.cpp:348-439 | the arguments of FirstPut, NextPut and LastPut concatenate to the message |
| BufferedInput.LastPutContract | project/cryptopp/filters.h:179-194 | the length of LastPut in the three cases, and exactly when FirstPut and NextPut are called |
| BufferedInput.HeldUnique | project/cryptopp/filters.cpp:375-418 | how much is held back depends on the total only |
| BufferedInput.SplitIndependent | project/cryptopp/filters.cpp:348-439 | two splits give the same FirstPut, the same LastPut and the same bytes through NextPut |
| BufferedInput.QueueRoom | project/cryptopp/filters.cpp:366-366 | the queue of that many blocks has room for all that is ever held back |
| StreamFilter.PadLast | project/cryptopp/filters.cpp:712-730 | the padded last block |
| StreamFilter.PaddedBytes | project/cryptopp/filters.cpp:712-730 | byte by byte: as many bytes as are missing with that number as their value (section 6.3 of RFC 5652), or the byte 128 and zeros |
| StreamFilter.UnpadLast | project/cryptopp/filters.cpp:736-749 | returns what the block is the padding of, and refuses exactly the blocks that are no padding |
| StreamFilter.PaddedInjective | project/cryptopp/filters.cpp:712-749 | a padded block determines what was padded |
| StreamFilter.LastPut | project/cryptopp/filters.cpp:662-757 | what is put out or which exception is thrown, for every padding, direction and minimum size of the last block |
| StreamFilter.WhichException | project/cryptopp/filters.cpp:601-757 | without ciphertext stealing: which exception is thrown and exactly when, but for paddings found wrong, which UnpadLast settles |
| StreamFilter.RunFilter | project/cryptopp/filters.cpp:588-757 | the outcome for a message in any pieces is that for the whole message; a padding that completes blocks is refused unless the cipher is a block cipher that steals no ciphertext |
| StreamFilter.ForwardSucceeds | project/cryptopp/filters.cpp:598-614 | encryption with recoverable padding is refused exactly if the cipher is no block cipher, and else succeeds and adds one to blockSize bytes |
| StreamFilter.InverseHoldsOneBlock | project/cryptopp/filters.cpp:588-596 | the size choice makes LastPut see exactly one block when decrypting |
| StreamFilter.RoundTrip | project/cryptopp/filters.cpp:662-757 | forward then inverse recovers the message under PKCS (section 6.3 of RFC 5652) and ones-and-zeros padding |
| StreamFilter.ZerosRoundTrip | project/cryptopp/filters.cpp:671-704 | under zero padding the message comes back filled with zeros, so unchanged exactly when it is whole blocks |
| StreamFilter.NoPaddingRoundTrip | project/cryptopp/filters.cpp:671-704 | without padding, encryption succeeds exactly for whole blocks, and then the message comes back |
| StreamFilter.StealingRoundTrip | project/cryptopp/filters.cpp:671-704 | with a minimum last block size, what is encrypted comes back, with the zeros if it was short and they were asked for |
| MeterFilters.MeterFilter.AddRangeToSkip | project/cryptopp/filters.cpp:164-170 | the ranges are the old ones and the new one, sorted if asked for |
| MeterFilters.OneRange | project/cryptopp/filters.cpp:183-206 | a range cuts exactly its bytes out of its own message, and nothing out of others |
| MeterFilters.BeforeTheRange | project/cryptopp/filters.cpp:185-193 | no range covers the bytes before the front range |
| MeterFilters.DropFront | project/cryptopp/filters.cpp:195-202 | a range that has been passed can be dropped, whatever it overlaps |
| MeterFilters.LeftTwice | project/cryptopp/filters.cpp:183-206 | which ranges remain does not depend on where the message was cut |
| MeterFilters.MeterFilter.PutMaybeModifiable | project/cryptopp/filters.cpp:172-228 | a call that is not blocked has put out exactly the bytes of its input outside the ranges in force and dropped exactly the ranges that were reached while bytes were left and end within it; one that is blocked will have when it is repeated |
| MeterFilters.MeterMessage | project/cryptopp/filters.cpp:172-228 | for every chunking and every pattern of blocking, the output is the bytes of the message outside the union of the ranges in force, and the ranges that remain are given by its length |
| MeterRuns.RangesObeyed | project/cryptopp/filters.cpp:185-185 | a message is cut down to the bytes outside all ranges exactly if no range of an earlier message is at the front or none of its bytes is in a range |
| MeterRuns.LeftIsCurrent | project/cryptopp/filters.cpp:183-206 | all ranges of a message are dropped in it exactly if each starts and ends within it and none follows one that ends with it |
| MeterRuns.OthersStay | project/cryptopp/filters.cpp:183-206 | a message drops ranges of its own only |
| MeterRuns.RunObeysRanges | project/cryptopp/filters.cpp:172-228 | over a run of messages, exactly the bytes outside all ranges come out if and only if every message with a byte in a range comes after messages that use up their own |
| MeterRuns.MeterMessages | project/cryptopp/filters.cpp:172-228 | for every run of messages, chunking and pattern of blocking, what comes out and which ranges remain |
| MeterRuns.RangeIsLost | project/cryptopp/filters.cpp:183-206 | ranges and lengths of two messages for which a byte that is to be skipped comes out |
| MeterRuns.RunThatLosesARange | project/cryptopp/filters.cpp:164-228 | a run of a new filter, with any sink, in which it does |
| BitStrings.PaddedSpells | project/cryptopp/basecode.cpp:45-110 | the digits of a message spell its bits and fewer zeros than a digit has |
| BitStrings.RegroupRoundTrip | project/cryptopp/basecode.cpp:45-173 | regrouping the bits of bytes into digits, and those into whole bytes, gives the bytes |
| BasePacking.PackByte | project/cryptopp/basecode.cpp:53-76 | the eight bits of a byte follow the bits in the buffer, and every index is in range |
| BasePacking.PackDigit | project/cryptopp/basecode.cpp:143-159 | the bits of a digit follow the bits in the buffer, across two bytes or not, and every index is in range |
| BaseNEncoding.OutputBlockSize | project/cryptopp/basecode.cpp:37-40 | the least number of characters that makes whole bytes |
| BaseNEncoding.BaseNEncoder.Put2 | project/cryptopp/basecode.cpp:45-110 | at the end of the message the output is the encoding of all input; a call that is blocked at either output goes on from there when repeated |
| BaseNRoundTrip.EncodeMessage | project/cryptopp/basecode.cpp:45-110 | for every chunking and every pattern of blocking, the output is the encoding of the whole message |
| BaseNNumbers.DigitsSpellNumber | project/cryptopp/basecode.cpp:45-110 | the digits of an encoding spell in base 2^k the number that the bytes spell in base 256, times a power of two that fills the last digit |
| BaseNNumbers.TextOfDigits | project/cryptopp/basecode.cpp:45-110 | the text is these digits as letters, and then the padding character up to the next whole block, if there is one |
| BaseNDecoding.OutputBlockSize | project/cryptopp/basecode.cpp:122-125 | the least number of bytes that makes whole characters |
| BaseNDecoding.BaseNDecoder.Put2 | project/cryptopp/basecode.cpp:130-173 | at the end of the text the output is its decoding; a call that is blocked at either output goes on from there when repeated |
| BaseNRoundTrip.DecodeMessage | project/cryptopp/basecode.cpp:130-173 | for every chunking and every pattern of blocking, the output is the decoding of the whole text |
| BaseNNumbers.BytesSpellNumber | project/cryptopp/basecode.cpp:130-173 | the bytes of any text spell the number of its digits without the bits that make no whole byte |
| BaseNDecoding.InitializeDecodingLookupArray | project/cryptopp/basecode.cpp:175-194 | each entry is the index of the letter the character stands for, in either case if asked, or -1 if there is none |
| BaseNNumbers.SameLetter | project/cryptopp/basecode.cpp:181-193 | upper and lower case of the 26 letters count as the same exactly if that is asked for |
| BaseNRoundTrip.TableInverts | project/cryptopp/basecode.cpp:175-194 | such a table reads every letter as its digit and passes over exactly the other characters |
| Groupers.GroupedAppend | project/cryptopp/basecode.cpp:216-229 | grouping in two parts, with the counter carried over, is grouping the whole |
| Groupers.Grouper.Put2 | project/cryptopp/basecode.cpp:211-240 | at the end of the message the output is the grouped text and the terminator; a call that is blocked at any of the four outputs goes on from there when repeated |
| BaseNNumbers.GroupsAreJoined | project/cryptopp/basecode.cpp:211-240 | the text in groups with a separator between any two and none at the end |
| BaseNRoundTrip.GroupMessage | project/cryptopp/basecode.cpp:211-240 | for every chunking and every pattern of blocking, the output is the grouping of the whole text |
| BaseNRoundTrip.DecodeEncode | project/cryptopp/basecode.cpp:19-240 | decoding an encoding recovers the message, for 1 to 7 bits per character, with padding, separators and terminator outside the alphabet |
| AuthenticatedCipher.AbsorbTwice | project/cryptopp/authenc.cpp:12-47 | absorbing data in two parts gives the blocks and the rest of the whole |
| AuthenticatedCipher.AuthenticatedSymmetricCipher.AuthenticateData | project/cryptopp/authenc.cpp:12-47 | the whole blocks of buffered and new data go to the authenticator, the rest stays in the buffer |
| AuthenticatedCipher.AuthenticatedSymmetricCipher.SetKey | project/cryptopp/authenc.cpp:49-61 | the state after a key is set, with or without an IV, or refused |
| AuthenticatedCipher.AuthenticatedSymmetricCipher.Resynchronize | project/cryptopp/authenc.cpp:63-74 | the state after an IV is set or refused |
| AuthenticatedCipher.AuthenticatedSymmetricCipher.Update | project/cryptopp/authenc.cpp:76-103 | the state after header or footer data, in each of the six states |
| AuthenticatedCipher.AuthenticatedSymmetricCipher.ProcessData | project/cryptopp/authenc.cpp:105-135 | the state and output after message data, in each of the six states, with the length counted before it is checked |
| AuthenticatedCipher.AuthenticatedSymmetricCipher.TruncatedFinal | project/cryptopp/authenc.cpp:137-177 | the tag or the exception, and the state after it |
| AuthenticatedMessages.OneMessage | project/cryptopp/authenc.cpp:12-177 | for a message that begins with a new IV, or with a key and an IV from any state, and every header, text and footer of any length in any chunks: the output is the cipher on the text accepted, and the tag is that of header, text and footer as they are taken, with the length of all text on record; no tag if header or footer is too long |
| AuthenticatedMessages.TagInputParts | project/cryptopp/authenc.cpp:12-47 | a tag is made from header, authenticated text and footer, each in whole blocks with its incomplete block, and their lengths |
| AuthenticatedMessages.AuthenticatedSide | project/cryptopp/authenc.cpp:119-130 | the plaintext is authenticated, in both directions, exactly if the mode says so, otherwise the ciphertext |
| AuthenticatedMessages.AcceptedCalls | project/cryptopp/authenc.cpp:105-109 | the text accepted is that of all calls before the first that exceeds the maximum |
| AuthenticatedMessages.TagOfGivenStrings | project/cryptopp/authenc.cpp:76-135 | this is the tag of the strings as given exactly if the text is within the maximum and there was a call of ProcessData or no footer |
| AuthenticatedMessages.EncryptThenDecrypt | project/cryptopp/authenc.cpp:49-177 | the decrypting object recovers the message from the output of the encrypting one and replies with the same tag, each with chunks of its own and keyed in either way |
| AuthenticatedMessages.SamePhases | project/cryptopp/authenc.cpp:76-135 | with equal header and footer strings, the two objects take them the same way exactly if both or neither process data, or there is no footer |
| AuthenticatedMessages.RefusedDataIsCounted | project/cryptopp/authenc.cpp:105-109 | over all calls for a message, the length on record is that of the text enciphered exactly if the text given is within the maximum |
| AuthenticatedSafety.TagNeedsKeyAndIV | project/cryptopp/authenc.cpp:49-177 | in every run from a new object, a tag is preceded by a valid SetKey and by a command that set a valid IV, with no tag, key or restart since, and is that of the mode for this key and this IV |
| AuthenticatedSafety.Refusals | project/cryptopp/authenc.cpp:49-177 | exactly which commands are refused in which state, as out of order or for their arguments and lengths |
| AuthenticatedSafety.RefusedEffects | project/cryptopp/authenc.cpp:49-177 | the state after every refused command, and after a key without an IV |
| AuthenticatedSafety.NoMessageAfterFooter | project/cryptopp/authenc.cpp:76-135 | in every run, no message data is accepted after footer data before a new IV is set |
| Gcm.ShiftWords | project/cryptopp/gcm.cpp:39-41 | the step of V on two words, with its reduction, is multiplication by x |
| Gcm.GfMult | project/cryptopp/gcm.cpp:25-45 | the loop on two words computes the product of section 6.3 of NIST SP 800-38D |
| GcmField.MultiplyIsFieldProduct | project/cryptopp/gcm.cpp:25-45 | that product is the carry-less product of the reflected blocks modulo x^128 + x^7 + x^2 + x + 1 |
| GcmField.FieldProductUnique | project/cryptopp/gcm.cpp:25-45 | no other block is |
| GcmField.MultiplyCommutes | project/cryptopp/gcm.cpp:25-45 | the factors can be exchanged |
| GcmField.MultiplyAssociates | project/cryptopp/gcm.cpp:25-45 | products can be regrouped |
| GcmField.MultiplyDistributes | project/cryptopp/gcm.cpp:25-45 | products distribute over sums |
| GcmField.GhashIsPowerSum | project/cryptopp/gcm.cpp:430-559 | GHASH of n blocks is x h^n + d1 h^n + d2 h^(n-1) + ... + dn h, section 6.4 of NIST SP 800-38D |
| Gcm.ByteSumIsProduct | project/cryptopp/gcm.cpp:532-551 | a block times the key is the sum of sixteen table entries, one for each byte |
| Gcm.SetTables64K | project/cryptopp/gcm.cpp:187-217 | every entry is its byte at its place times the hash key |
| Gcm.AuthenticateBlocks64K | project/cryptopp/gcm.cpp:498-559 | GHASH of section 6.4 of NIST SP 800-38D over any number of blocks |
| Gcm2K.BuildReductionTable | project/cryptopp/gcm.cpp:220-233 | every entry is what eight shifts make of its byte |
| Gcm2K.SetTables2K | project/cryptopp/gcm.cpp:235-268 | every entry is its nibble at its place times the hash key |
| Gcm2K.HornerReduced | project/cryptopp/gcm.cpp:480-489 | the three shifts by a byte with one deferred reduction word equal three full reductions |
| Gcm2K.AuthenticateBlocks2K | project/cryptopp/gcm.cpp:430-496 | GHASH over any number of blocks |
| Cmac.MulU | project/cryptopp/cmac.cpp:12-42 | for every size, throws exactly if the size is unsupported and a bit is shifted out of the pairs; where it does not, it doubles in GF(2^(8n)) (section 2.3 of RFC 4493 for n = 16) exactly if, for even sizes, the size is not 32 or no bit is shifted out, and, for odd sizes, the first byte is zero |
| Cmac.OddDoubled | project/cryptopp/cmac.cpp:16-22 | with an odd number of bytes, leaving the first one alone doubles exactly if it is zero |
| Cmac.DoubleReduced | project/cryptopp/cmac.cpp:24-41 | dropping the carry and adding the low terms of a polynomial is reduction by it |
| Cmac.DoubleUnique | project/cryptopp/cmac.cpp:24-41 | there is only one double |
| Cmac.FieldTerms | project/cryptopp/cmac.cpp:24-41 | the three field polynomials, term by term |
| Cmac.AddedIsNoDouble | project/cryptopp/cmac.cpp:34-37 | for 32 bytes, whatever element has a bit shifted out is not doubled |
| Cmac.TopBitIsNotDoubled | project/cryptopp/cmac.cpp:34-37 | such an element, its double, and what MulU makes of it |
| Cmac.AddedPolynomialReducible | project/cryptopp/cmac.cpp:34-37 | x^2 + x + 1 divides the polynomial that is reduced by for 32 bytes |
| Cmac.Subkeys | project/cryptopp/cmac.cpp:53-56 | the subkeys are the doubled and the twice doubled encryption of zero, exactly as far as MulU doubles |
| Cmac.CMAC.constructor | project/cryptopp/cmac.cpp:44-57 | a MAC of nothing with these subkeys, for every cipher for which neither doubling throws |
| Cmac.CMAC.Update | project/cryptopp/cmac.cpp:59-98 | the input is added to the message; 1 <= counter <= blockSize after any nonempty update |
| Cmac.CMAC.TruncatedFinal | project/cryptopp/cmac.cpp:100-119 | the one-shot CMAC of section 2.4 of RFC 4493 of all input since the last tag, truncated |
| Cmac.FinalBlock | project/cryptopp/cmac.cpp:107-113 | masking the register, padded or not, and enciphering it gives the CMAC |
| Cmac.MacIsChain | project/cryptopp/cmac.cpp:59-119 | section 2.4 of RFC 4493: whole blocks are chained with K1 added to the last one, anything else with a 1 bit and zeros behind it and K2 |
| AsnLength.DERLengthEncode | project/cryptopp/asn.cpp:16-35 | appends the length octets and returns their number |
| AsnLength.LengthWritten | project/cryptopp/asn.cpp:16-35 | the length itself below 128, otherwise 128 plus how many octets follow, and these spell it |
| AsnLength.BERLengthDecode | project/cryptopp/asn.cpp:37-73 | the result and the octets consumed, on every input |
| AsnLength.LengthMeaning | project/cryptopp/asn.cpp:37-73 | complete length octets mean the number they spell, an indefinite length or an overflow |
| AsnLength.GuardExact | project/cryptopp/asn.cpp:61-70 | the overflow guard fires exactly for values that do not fit in an lword |
| AsnLength.LengthRoundTrip | project/cryptopp/asn.cpp:16-73 | every 64-bit length comes back with exactly its own octets consumed |
| AsnLength.LengthMinimal | project/cryptopp/asn.cpp:16-35 | the encoding has no leading zero octet and is in short form when possible |
| AsnOid.EncodeValue | project/cryptopp/asn.cpp:220-225 | appends the arc in groups of seven bits |
| AsnOid.ArcWritten | project/cryptopp/asn.cpp:220-225 | seven bits of each octet spell the arc, all octets but the last are marked, and none is superfluous |
| AsnOid.DecodeValue | project/cryptopp/asn.cpp:227-244 | the arc, the octets consumed or the error, on every input |
| AsnOid.ArcRead | project/cryptopp/asn.cpp:227-244 | an arc reads as the number it spells, unless that has more than 32 bits |
| AsnOid.ArcRoundTrip | project/cryptopp/asn.cpp:220-244 | every 32-bit arc comes back; the overflow guard does not fire |
| AsnOid.OidEncode | project/cryptopp/asn.cpp:246-256 | appends the tag, the length and the content |
| AsnOid.KnownIdentifier | project/cryptopp/asn.cpp:246-256 | the octets of 1.2.840.113549 |
| AsnOid.OidDecode | project/cryptopp/asn.cpp:258-285 | the arcs and the octets consumed, or the error, on every input |
| AsnOid.OidRoundTrip | project/cryptopp/asn.cpp:246-285 | the identifier comes back exactly when its second arc is below 40 and its first two arcs fit one octet |
| AsnUnsigned.DEREncodeUnsigned | project/cryptopp/asn.h:296-321 | the content is the minimal non-negative two's complement number, or 0 or 255 for BOOLEAN |
| AsnUnsigned.BERDecodeUnsigned | project/cryptopp/asn.h:326-357 | the number and the octets consumed, or the error, on every input |
| AsnUnsigned.AnyContent | project/cryptopp/asn.h:340-356 | any content, minimal or not, reads as a number without sign, which is returned exactly if it fits the type and the range |
| AsnUnsigned.UnsignedRoundTrip | project/cryptopp/asn.h:296-357 | for every word size, an encoded number comes back exactly when it is in the range asked for |
| AsnUnsigned.DefaultRange | project/cryptopp/asn.h:327-328 | the default bound admits all values of types up to 32 bits and only 32-bit values of larger types |
| AsnUnsigned.BooleanRoundTrip | project/cryptopp/asn.h:301-305 | a BOOLEAN comes back as 0 or 255 |
| AsnUnsigned.IndefiniteIsZero | project/cryptopp/asn.h:334-340 | an indefinite length decodes to 0 from two octets exactly if 0 is in range |
| AsnReencode.Source.Transfer | project/cryptopp/asn.cpp:460-485 | takes what all enclosing decoders let through, each charged for every byte |
| AsnReencode.OpenDecoder | project/cryptopp/asn.cpp:393-404 | reads tag and length, and refuses an indefinite length of a primitive element |
| AsnReencode.ConstructedBit | project/cryptopp/asn.cpp:402-403 | of class, constructed bit and number of an identifier octet, the bit decides |
| AsnReencode.DERReencode | project/cryptopp/asn.cpp:203-218 | what is emitted and consumed on every input: an element is re-encoded and exactly it consumed, and after an exception the levels begun are emitted as far as they came; every byte consumed is charged to every enclosing decoder |
| AsnReencode.ReencodeElement | project/cryptopp/asn.cpp:203-218 | every well-formed element nested to any depth is consumed exactly and becomes the definite-length element around its re-encoded children |
| AsnReencode.UsualElements | project/cryptopp/asn.cpp:203-218 | a SEQUENCE, SET or constructed OCTET STRING of indefinite length, with any well-formed content |
| AsnReencode.SequenceOfNull | project/cryptopp/asn.cpp:203-218 | six octets and the four they become |
| AsnReencode.ShortContent | project/cryptopp/asn.cpp:203-218 | an element with less content than its length says fails, with what there is of it emitted |
| AsnReencode.RefusedChild | project/cryptopp/asn.cpp:402-416 | a primitive element of indefinite length inside another: an empty element is emitted, and up to two octets more are consumed |
| AsnReencode.Recognised | project/cryptopp/asn.cpp:203-218 | conversely, whatever is re-encoded is a well-formed element, and the output is its DER form |
| AsnReencode.Idempotent | project/cryptopp/asn.cpp:203-218 | the output re-encodes to itself |
| AsnReencode.OutputBound | project/cryptopp/asn.cpp:509-516 | the output has at most five times the octets consumed |
| GF2_32.Multiply | project/cryptopp/gf2_32.cpp:12-44 | the carry-less product modulo x^32 + m, without rotations |
| GF2_32.MultiplyRotating | project/cryptopp/gf2_32.cpp:12-36 | the same product, with b rotated instead of shifted |
| GF2_32.RotateBack | project/cryptopp/gf2_32.cpp:26-33 | a rotation to the left by one takes back one step of the rotation to the right, so that b comes back after thirty |
| GF2_32.ProductUnique | project/cryptopp/gf2_32.cpp:10-45 | there is only one such word |
| GF2_32.ComparisonDecides | project/cryptopp/gf2_32.cpp:72-84 | the comparison of the words decides which polynomial has the higher degree |
| GF2_32.AlignmentTest | project/cryptopp/gf2_32.cpp:85-92 | the inner loop ends exactly when the degrees are equal |
| GF2_32.EuclidStep | project/cryptopp/gf2_32.cpp:70-95 | one step keeps the invariant, with no bit of v shifted out, and lowers the degree |
| GF2_32.RemainderNonzero | project/cryptopp/gf2_32.cpp:70-95 | for an irreducible polynomial the remainder never becomes zero |
| GF2_32.ShiftInWord | project/cryptopp/gf2_32.cpp:85-90 | the shifts do not leave the word |
| GF2_32.MultiplicativeInverse | project/cryptopp/gf2_32.cpp:47-98 | terminates, and its product with every nonzero a is 1 |
| Gf2Irreducible.Idempotents | project/cryptopp/gf2_32.h:16-16 | modulo x^32 + x^7 + x^3 + x^2 + 1, only 0 and 1 are their own squares |
| Gf2Irreducible.CoprimeFactors | project/cryptopp/gf2_32.h:16-16 | so this polynomial has no coprime factors but 1 and itself |
| Gf2Irreducible.SquareFree | project/cryptopp/gf2_32.h:16-16 | and no square divides it |
| Gf2Irreducible.DefaultModulusIsField | project/cryptopp/gf2_32.h:16-16 | the default modulus is irreducible |
| Gf2Irreducible.DefaultInverse | project/cryptopp/gf2_32.cpp:47-98 | with the default modulus, every nonzero element gets its inverse, without any condition |
| Esign.PowerOfSum | project/cryptopp/esign.cpp:164-166 | the e-th power of r + t m is r^e + e r^(e-1) t m modulo n when n divides m squared |
| Esign.CandidateBelowN | project/cryptopp/esign.cpp:164-167 | s is below n for every r below pq |
| Esign.AcceptedIsPreimage | project/cryptopp/esign.cpp:141-180 | every accepted r gives s below n; ApplyFunction(s) = x exactly if x < 2^k and r and e are coprime to p or r is a preimage already |
| Esign.AcceptedExactly | project/cryptopp/esign.cpp:149-166 | r is accepted exactly if the next multiple of pq from x 2^(2k+2) - r^e modulo n on is less than 2^(2k+1) away |
| Esign.ImageOfNumber | project/cryptopp/esign.cpp:44-48 | in inequalities: the image is what x^e modulo n has above its low 2k + 2 bits, or 2^k - 1 if that is more |
| Esign.NoInverse | project/cryptopp/esign.cpp:164-166 | if r or e has a factor in common with p, then s = r |
| Esign.CalculateRandomizedInverse | project/cryptopp/esign.cpp:141-180 | the first accepted draw decides; s is below n, and a preimage exactly under that condition |
| Esign.ZeroDraw | project/cryptopp/esign.cpp:149-166 | for every key, the draw 0, if accepted, is inverted exactly for x = 0 |
| Esign.ZeroDrawFails | project/cryptopp/esign.cpp:149-166 | a key under which the draw 0 is accepted for x = 1 |
| BlumBlumShubGenerator.BlumBlumShub.GenerateBit | project/cryptopp/blumshub.cpp:16-25 | the next bit of the stream of squares |
| BlumBlumShubGenerator.BlumBlumShub.GenerateByte | project/cryptopp/blumshub.cpp:27-33 | the next byte of the stream |
| BlumBlumShubGenerator.BlumBlumShub.constructor | project/cryptopp/blumshub.cpp:8-14 | ready for bit 0 of the stream of the seed squared, and maxBits is one less than the length of the length of n |
| BlumBlumShubGenerator.SquareSpells | project/cryptopp/blumshub.cpp:16-25 | the bits of one square, in the order in which they are given, spell its low maxBits bits |
| BlumBlumShubGenerator.StreamOfSquares | project/cryptopp/blumshub.cpp:16-25 | the stream is the low bits of one square after another |
| BlumBlumShubGenerator.SuccessiveSquares | project/cryptopp/blumshub.cpp:16-25 | the first square is that of x0, and each one the square of the one before |
| BlumBlumShubGenerator.BytesSpell | project/cryptopp/blumshub.cpp:27-39 | the bytes spell these bits, the first on top |
| BlumBlumShubGenerator.ReducedExponent | project/cryptopp/blumshub.cpp:58-59 | the exponent may be reduced modulo (p-1)(q-1) |
| BlumBlumShubGenerator.BlumBlumShub.Seek | project/cryptopp/blumshub.cpp:54-61 | the generator stands at byte index of the stream, perhaps in another state than by generating |
| BlumBlumShubGenerator.SeekOrDiscard | project/cryptopp/blumshub.cpp:8-61 | the bytes after Seek(index) are those after discarding index bytes |
| Adler.ChecksumConcat | project/cryptopp/adler32.cpp:9-55 | the sums of a concatenation are the sums of the second part started with those of the first |
| Adler.ChecksumIsByteSum | project/cryptopp/adler32.cpp:9-55 | s1 is the start plus all bytes, modulo 65521 |
| Adler.ChecksumClosedForm | project/cryptopp/adler32.cpp:9-55 | s1 and s2 in closed form, s2 with the bytes weighted n, n - 1, ..., 1, modulo 65521 |
| Adler.Adler32.Update | project/cryptopp/adler32.cpp:9-55 | the sums of section 2.2 of RFC 1950 from any starting state, with s2 within 32 bits throughout and one subtraction enough for s1 |
| Adler.UpdateTwice | project/cryptopp/adler32.cpp:9-55 | Update(a) then Update(b) is Update(a + b) |
| Adler.Adler32.TruncatedFinal | project/cryptopp/adler32.cpp:57-76 | the leading octets of the big-endian number s2 * 65536 + s1, refused beyond four, and then a fresh state |

## Left out

- The game, platform and HTTP servers and the messaging wrappers: socket plumbing over libraries that are not part of this model.
- SSE2, CLMUL and MASM branches of `gcm.cpp`, CPU probing and byte order: blocks are numbers, so one order serves for all.
- `ECP::Add` and the group law of curves: `EllipticMultiplication` takes the points of a curve to be an abelian group in which doubling and negation are those of `ecp.cpp`; Montgomery representation, curve tables and key formats are left out.
- Block-cipher rounds and constant tables: ciphers are parameters with the laws the algorithms need.
- `EncodedObjectFilter`, and the convenience classes built on the modelled filters.
- Timing countermeasures, memory wiping and the quality of random numbers.
- Esign.CalculateRandomizedInverse: the random draws are a parameter, so that the loop ends with the list of draws; that a draw is accepted eventually is a matter of probability.
- BlumBlumShubGenerator.BlumBlumShub.Seek: x0^((p-1)(q-1)) = 1 modulo pq is a precondition, since primality of p and q is not modelled.
- GF2_32.MultiplicativeInverse: for other moduli than the default one, that x^32 + m is irreducible is a precondition.
- EllipticMultiplication.SimultaneousMultiply: exponents are positive, since the source is undefined for zero.
- `Load` and `Save` of the fixed-base precomputation: plain serialization.
- BlockQueues.BlockQueue.GetBlock: returns the bytes of the block; that the pointer stays good until the next call is not modelled.
- BlockQueues.BlockQueue.GetContigousBlocks: the number of bytes asked for is a multiple of the block size, as every caller has it; others would let later blocks wrap around.
- BufferedInput.FilterWithBufferedInput.Put: `ForceNextPut` and flushing are left out, as is the modifiable or unmodifiable nature of the input.
- StreamFilter.LastPut: the choice of the default padding is left out; `NextPutMultiple` is modelled without its cutting up by buffer size; a PKCS block size of 256 or more is excluded, as the source asserts.
- MeterFilters.MeterFilter.PutMaybeModifiable: the ranges must be sorted when data comes; the sum of position and size does not wrap around.
- MeterFilters.MeterFilter.AddRangeToSkip: not between a blocked call and its repetition, where a new front range would change what the repeated output starts with.
- BaseNEncoding.BaseNEncoder.Put2: the number of unprocessed bytes returned by a blocked call is left out; callers repeat the call with the same arguments.
- BaseNDecoding.BaseNDecoder.Put2: entries of the lookup table are -1 or below 2^bitsPerChar, as `InitializeDecodingLookupArray` makes them.
- AuthenticatedCipher.AuthenticatedSymmetricCipher.ProcessData: the cipher acts on each byte by its position and is its own inverse, as counter mode is; length counters do not wrap around at 2^64.
- AsnReencode.DERReencode: the input is shorter than a fifth of 2^64 octets, so that every length emitted fits an lword.
- Cmac.CMAC.TruncatedFinal: the check of the truncated size is a precondition.
- Cmac.CMAC.constructor: that neither doubling throws is a precondition.
- Cmac.MulU: that the three field polynomials are irreducible is not proved; only that the one added for 32 bytes is not.
