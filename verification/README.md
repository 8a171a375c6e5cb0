# Verified models of Go 1.11 algorithms and protocols

This project models parts of the Go 1.11 standard library and of its tools whose
correctness is hard to see from the code, and proves what they are for. Check it with
`dafny verify dfyconfig.toml`.

**Floating point, exactly.** A double is its 64-bit pattern (`Float64.dfy`); a finite one is
worth a whole number of units of 2^-1074. `Rounding.dfy` defines rounding to nearest, ties to
even (IEEE 754-2008 section 4.3.1), proves that no pattern is nearer, and gives the double
operations the code uses (+, -, * by a power of two, comparisons) by their exact value rounded
once. On top of that: `math.Sqrt` is the strictly nearest root (`Sqrt.dfy`), `Frexp` and
`Ldexp` are exact and correctly rounded (`Scaling.dfy`), `Mod` is the exact remainder and its
loop never rounds (`Mod.dfy`), `Remainder` is the IEEE remainder (`Remainder.dfy`), and the bit
tricks of `RoundToEven` and `Round` are what their names say (`Floor.dfy`).

**Protocols as step machines.** `io.Pipe` (`Pipe.dfy`), the cancellation tree of `context`
(`Context.dfy`) and the crawl of `misc/linkcheck` (`Linkcheck.dfy`) are machines whose steps any
number of goroutines take in any order; the theorems hold in every state of every run.

**Buffers that refine a stream.** `bufio.Reader`, `bufio.Scanner`, `fmt`'s `readRune` and
`bufio.Writer` (`BufReader.dfy`, `Scanner.dfy`, `RuneReader.dfy`, `BufWriter.dfy`) are classes
whose methods are specified on the plain byte stream behind them. `Source.dfy` is the contract
of the reader below them: a finite stream, chopped up at will, with empty reads and with the
error together with the last bytes or after them.

**Texts.** Rabin-Karp and the rest of `bytes.Index` (`Search.dfy`), `Count`, `Split*`, `Join` and
`Replace` (`Split.dfy`), UTF-8 (`Utf8.dfy`), HTML escaping and the in-place `UnescapeString`
(`Escape.dfy`), and the Q-encoded words and media types of `mime` (`EncodedWord.dfy`,
`MediaType.dfy`, and `Rfc2231.dfy` for values that come in pieces).

**An order.** RFC 6724 destination address selection (`AddrSelect.dfy`): the comparison is a strict
weak order, and only because of the policy table; it is the lexicographic order of a tuple.

## Where the code and its promises differ

Each difference has its exact condition, and most have an input, as members of the model.

- `Ldexp` adds exponents as 64-bit ints, so for an `exp` close to the ends of that range the sum
  wraps and the result is not the correctly rounded product: by `Scaling.Ldexp` it is right exactly
  if `exp` plus the exponent of `frac` fits an int.
- `Remainder` returns +0 when |x| == |y| and x is negative (remainder.go:59-61), where IEEE
  754-2008 section 5.3.1 asks for the sign of x. By `Remainder.Remainder` a zero has the sign of x
  in all other cases.
- `Reader.ReadLine` drops the error, `io.ErrNoProgress` included, when it comes with part of a line;
  by its contract there is an error only with an empty line. What is said of whole lines therefore
  asks that no fill gave up (`stalled`); nothing is lost even then but a line end.
- `Reader.Read` of an empty slice reports and clears a pending error before buffered bytes are read,
  as its contract says for `p.Length == 0`.
- `Reader.UnreadByte` puts `lastByte` back, documented as the last byte read. After `Discard` that
  undoes the skipping of the last byte exactly if the byte equals `lastByte`
  (`BufReader.DiscardThenUnread`, and `BufReader.UnreadAfterDiscard` where it does not). After a
  `ReadLine` that took something it undoes the last byte taken, unless the fragment is shorter than
  the buffer, because a "\r" was put back, and does not end in a "\r" itself
  (`BufReader.ReadLineThenUnread`, and `BufReader.UnreadAfterLine` where it does not).
- `Scanner` is documented to stop unrecoverably at an error or a token too large (scan.go:24). After
  any error `Scan` tells the split function once more that it is at EOF, so a token may follow. The
  contract of `Scan.Scanner.Scan` gives that token; by `Scan.ScanPastTooLong`, with ScanLines, one
  follows `ErrTooLong` exactly if the buffer has any room, and then none. `Scan.ScanShortBuffer` is
  a run in which that happens.
- `UnescapeString` counts bytes where it means digits (escape.go:107): `Escape.ReferenceIffDigit`
  says that a numeric reference is taken for one exactly if it has a digit, unless it is decimal
  with one digit and no ";" or hexadecimal with no digit and a ";". `Escape.DigitsMiscounted` is
  "&#1a", which stays, and "&#x;", which becomes U+FFFD.
- `readRune.ReadRune` loses the bytes of an unfinished rune when the reader fails in it with an error
  other than EOF: by `Utf8.DroppedRune` that makes a difference exactly if the text ends in one.
  `UnreadRune` before the first read succeeds and makes the next rune U+0000
  (`RuneReader.UnreadBeforeRead`), and a bad byte read again has size 3 (`RuneReader.RereadBadByte`).
- `Writer.WriteRune` of a negative rune writes its low byte; by `BufWriter.Writer.RuneBytesEncode`
  it writes the rune's encoding exactly if the rune is not negative.
- A text that needs no encoding is returned as it is by `Encode`, even if it looks like an encoded
  word: `EncodedWord.UnencodedWordIsDecoded`. By `EncodedWord.EncodeThenDecode` such a text comes back
  if no good word is found on the way through it, and, where base64 and a CharsetReader of the
  user's do not make what they decode to ASCII longer (`EncodedWord.WordsShrinkIf`), only then. That
  is all that is asked: the built-in charsets, which do lengthen bytes from 0x80 on, are modelled.
  A CharsetReader that does lengthen may give the word itself back (`EncodedWord.WordRestored`).
- `FormatMediaType` means to refuse values that are not ASCII, but tests one bit of each rune. By
  `MediaType.NonAsciiWritten` a value that is not ASCII is written exactly if no rune of it has the bit
  0x80 and some rune is 0x100 or more; "Ā" is one (`MediaType.LatinAWritten`). It also writes
  line breaks that `ParseMediaType` then refuses; `MediaType.FormatThenParse` says so exactly.
- `ParseMediaType` returns before it puts the pieces of RFC 2231 parameters together when a lone
  semicolon ends the text. By `MediaType.TrailingSemicolon` a semicolon behind a text that parses
  changes nothing exactly if it is the only one and putting the pieces together would change nothing;
  `MediaType.PieceLost` is "a/b; c*0=x".

## Model

| member | source | states |
|---|---|---|
| Rounding.NearestIsClosest | go-go1.11/src/math/ldexp.go:37-44 | the one rounding of the model, that of the product in the last line: of all patterns none is nearer to the exact value, and of two the even one is taken |
| Rounding.NearestExact | go-go1.11/src/math/mod.go:44 | an operation whose exact result some double holds does not round, which is why the loop is exact |
| Rounding.NearestScale | go-go1.11/src/math/ldexp.go:38-44 | moving a factor 2^53 from the exponent to m changes nothing before the one rounding: it depends on the value alone |
| Rounding.CloseDifferenceExact | go-go1.11/src/math/mod.go:44 | the difference of doubles within a factor of two is exact (Sterbenz) |
| Sqrt.Normalize | go-go1.11/src/math/sqrt.go:107-119 | the significand and exponent have the value of x, subnormals included |
| Sqrt.ScaleToEven | go-go1.11/src/math/sqrt.go:107-123 | the scaled integer has an even exponent and x's value |
| Sqrt.RootDigits | go-go1.11/src/math/sqrt.go:124-137 | the 54 digits are the floor of the square root of the scaled significand, the rest is 0 exactly for a square, and no uint64 step overflows |
| Sqrt.RoundedRoot | go-go1.11/src/math/sqrt.go:138-142 | rounding by the extra bit gives z with (2z-1)^2 < X < (2z+1)^2: never a tie |
| Sqrt.RootIsNearest | go-go1.11/src/math/sqrt.go:142-143 | that significand and the halved exponent make the strictly nearest double |
| Sqrt.Sqrt | go-go1.11/src/math/sqrt.go:99-144 | for every pattern: zeros, NaNs and +Inf unchanged, NaN below 0, else the strictly nearest double to the root |
| Sqrt.ExactRootIsReturned | go-go1.11/src/math/sqrt.go:99-144 | a square that a double is the root of gives that root |
| Sqrt.NearestRootMonotone | go-go1.11/src/math/sqrt.go:99-144 | the result grows with the argument and is the only strictly nearest one |
| Scaling.Normalize | go-go1.11/src/math/bits.go:54-62 | x == y * 2^exp exactly, with y normal and of x's sign |
| Scaling.Frexp | go-go1.11/src/math/frexp.go:18-33 | f == frac * 2^exp exactly with 1/2 <= abs(frac) < 1; zeros, infinities and NaNs come back with exponent 0 |
| Scaling.Assemble | go-go1.11/src/math/ldexp.go:25-45 | the tail, the denormal path included, rounds correctly for every exponent |
| Scaling.Ldexp | go-go1.11/src/math/ldexp.go:16-45 | the result is frac * 2^exp correctly rounded if and only if the exponent sum fits an int |
| Scaling.LdexpInvertsFrexp | go-go1.11/src/math/ldexp.go:16-45 | scaling a fraction by its exponent, correctly rounded, gives back the double they were taken from |
| Scaling.FrexpThenLdexp | go-go1.11/src/math/frexp.go:18-33 | Ldexp(Frexp(f)) is f, for every pattern: zeros, infinities, NaNs and subnormals too |
| Mod.ChosenMultiple | go-go1.11/src/math/mod.go:39-44 | the exponent chosen from the fractions gives the largest multiple y*2^d not above r |
| Mod.ScaledUpExact | go-go1.11/src/math/mod.go:44 | that multiple is a double |
| Mod.RoundOfLoop | go-go1.11/src/math/mod.go:39-45 | a turn of the loop is exact, makes r smaller and keeps it modulo y |
| Mod.Mod | go-go1.11/src/math/mod.go:23-50 | for every pair of patterns: the exact remainder of the magnitudes with x's sign, and the special cases |
| Remainder.NearestQuotient | go-go1.11/src/math/remainder.go:10-17 | the specification leaves out n*y for an integer n no integer beats, the even one of two |
| Remainder.FoldedIsNearest | go-go1.11/src/math/remainder.go:62-80 | taking the argument modulo 2y first and folding it about y/2 is the nearest remainder |
| Remainder.Fold | go-go1.11/src/math/remainder.go:65-80 | both branches, tiny and large y, fold exactly |
| Remainder.Reduce | go-go1.11/src/math/remainder.go:62-80 | for non-negative operands of any size the reduction is exact |
| Remainder.Remainder | go-go1.11/src/math/remainder.go:39-85 | x - n*y exactly with n nearest to x/y, ties to even; the sign of a zero, with its exception; the special cases |
| Floor.AddTruncateToEven | go-go1.11/src/math/floor.go:105-123 | adding half less one ulp plus the parity bit and clearing the fraction rounds to even, carries and [1,2) included |
| Floor.RoundToEven | go-go1.11/src/math/floor.go:101-131 | for every pattern: the nearest integer, ties to even, x's sign; infinities and NaNs unchanged |
| Floor.Round | go-go1.11/src/math/floor.go:64-93 | for every pattern: the nearest integer, ties away from zero, x's sign; infinities and NaNs unchanged |
| Pipe.InvKept | go-go1.11/src/io/pipe.go:43-114 | every step of every goroutine keeps the invariant |
| Pipe.BytesConserved | go-go1.11/src/io/pipe.go:43-97 | what Reads got, in handshake order, is the consumed parts of the Writes in lock order |
| Pipe.OnePairAtATime | go-go1.11/src/io/pipe.go:43-97 | at most one reader and one writer are between the two handshakes, and never one alone |
| Pipe.WriteResult | go-go1.11/src/io/pipe.go:77-105 | a non-empty Write returns nil exactly if all its bytes were read, and else the count of those that were with a stored error or ErrClosedPipe |
| Pipe.ReadResult | go-go1.11/src/io/pipe.go:43-66 | a Read returns one transfer and nil, or no bytes with ErrClosedPipe or an error stored by a CloseWrite (which one, StoredAreGiven says) |
| Pipe.StoredAreGiven | go-go1.11/src/io/pipe.go:68-114 | every error stored on a side is the argument of a close begun there, or that side's default when one was begun without: EOF for CloseWrite, ErrClosedPipe for CloseRead |
| Pipe.FailsForReason | go-go1.11/src/io/pipe.go:60-114 | if only the writer closes, and always for one reason, every Read that fails returns it, EOF for a plain close, and every Write that fails ErrClosedPipe; and the mirror of this |
| Pipe.TransfersFill | go-go1.11/src/io/pipe.go:43-97 | every transfer fills the buffer of its Read or takes all that was left of its Write |
| Pipe.LateCallsFail | go-go1.11/src/io/pipe.go:43-114 | a call begun after the close fails without a byte |
| Pipe.DoneClosedOnce | go-go1.11/src/io/pipe.go:68-75 | no run closes a closed done channel, which would panic, and it is closed exactly if once has fired |
| Pipe.StuckOnlyWhileOpen | go-go1.11/src/io/pipe.go:43-114 | only an open pipe with Reads alone or Writes alone can wait for ever |
| Pipe.NoReaderBesideWriter | go-go1.11/src/io/pipe.go:43-97 | a waiting Read and a pending Write meet |
| Pipe.StepsRunOut | go-go1.11/src/io/pipe.go:43-114 | every step of a call lowers a finite bound |
| Pipe.RunsEnd | go-go1.11/src/io/pipe.go:43-114 | a run has at most eight steps for each call, its beginning included |
| Context.FindCancelCtx | go-go1.11/src/context/context.go:272-285 | the loop finds the nearest cancelCtx |
| Context.RunInv | go-go1.11/src/context/context.go:236-298 | every reachable state keeps the tree's invariant |
| Context.CancelReachesAll | go-go1.11/src/context/context.go:348-373 | when a cancel has returned, every constructed context at or below it is cancelled, its done channel closed and its children gone |
| Context.CanceledOnlyWhenAsked | go-go1.11/src/context/context.go:242-269 | nothing is cancelled but on behalf of itself or an ancestor |
| Context.LiveChildIsRegistered | go-go1.11/src/context/context.go:242-269 | a constructed live context is among the children of its live nearest cancelCtx |
| Context.ErrAndDoneTogether | go-go1.11/src/context/context.go:325-373 | err is set once and never changes, and done is closed once, in that same step (which err it is, ErrHasReason says) |
| Context.ErrHasReason | go-go1.11/src/context/context.go:236-406 | every cancelled context has the error of a context at or above it that had a reason of its own: cancel was called on that one with this very error, or it was made past its deadline and the error is DeadlineExceeded |
| Context.PastDeadline | go-go1.11/src/context/context.go:384-407 | what was made past its deadline is cancelled when WithDeadline returns, its timer off, and with DeadlineExceeded if no cancel was called for another reason |
| Context.CancelStopsTimer | go-go1.11/src/context/context.go:427-439 | when a cancel of a timer context has returned its timer is off, and stays off |
| Context.CancelledLeaves | go-go1.11/src/context/context.go:287-298 | a cancelled context is among the children of a live one only while the cancel called on it has not returned |
| Context.ChildrenExact | go-go1.11/src/context/context.go:242-373 | when all calls have returned the children of a live context are exactly the live constructed contexts right below it |
| Context.LocksAbove | go-go1.11/src/context/context.go:348-373 | a goroutine takes locks from the root down only |
| Context.NeverDeadlocked | go-go1.11/src/context/context.go:242-373 | while a call is unfinished some goroutine can move |
| Context.SettledBelow | go-go1.11/src/context/context.go:348-373 | below a context whose cancel has let go of its lock everything constructed is cancelled |
| Context.StepsRunOut | go-go1.11/src/context/context.go:242-373 | every step of a call lowers a bound made of its frames and of the children still to be cancelled |
| Context.StartAdds | go-go1.11/src/context/context.go:230-234 | beginning a call adds no more than twelve to it |
| Context.RunsEnd | go-go1.11/src/context/context.go:230-373 | so a run has at most thirteen steps for each call, the call itself included, whatever the schedule and the tree |
| Linkcheck.NoSendAfterClose | go-go1.11/misc/linkcheck/linkcheck.go:173-181 | when Wait has returned no goroutine is left that could send on the closed channel |
| Linkcheck.CrawledIsTheClosure | go-go1.11/misc/linkcheck/linkcheck.go:78-171 | the pages crawled are then the least set with the root and all links and redirects of its pages, each fetched once |
| Linkcheck.CrawledClean | go-go1.11/misc/linkcheck/linkcheck.go:78-105 | no page crawled has a "#" in its URL, and all are below the root |
| Linkcheck.BaseAndFrag | go-go1.11/misc/linkcheck/linkcheck.go:84-92 | a URL is parted at its first "#": Base(u + "#" + f) is u and Frag is f |
| Linkcheck.SkippedHolds | go-go1.11/misc/linkcheck/linkcheck.go:79-81 | what is skipped is exactly what holds "/devel/release" |
| Linkcheck.FetchedOnce | go-go1.11/misc/linkcheck/linkcheck.go:78-118 | at every moment the counter is the pending senders plus the crawl in progress, and each page crawled is either sent or fetched, once |
| Linkcheck.FragmentsExact | go-go1.11/misc/linkcheck/linkcheck.go:78-171 | at the end the fragments needed are those of the links reported and the fragments there those of the pages |
| Linkcheck.NeverStuck | go-go1.11/misc/linkcheck/linkcheck.go:97-181 | until the channel is closed some step can be taken |
| Linkcheck.StepsRunOut | go-go1.11/misc/linkcheck/linkcheck.go:78-171 | on a finite site every step lowers a well-founded rank |
| Linkcheck.RunsEnd | go-go1.11/misc/linkcheck/linkcheck.go:78-171 | the length of a run is exactly what it has worked off of the pages: two steps for each, one for each link and id, and two for main |
| BufReader.Reader.constructor | go-go1.11/src/bufio/bufio.go:46-58 | the new reader stands for the source's stream, with a buffer of at least 16 bytes |
| BufReader.Reader.Fill | go-go1.11/src/bufio/bufio.go:86-114 | sliding and reading keep the stream; a byte more is buffered or an error is set |
| BufReader.Reader.ReadErr | go-go1.11/src/bufio/bufio.go:116-120 | the pending error is handed out once |
| BufReader.Reader.Peek | go-go1.11/src/bufio/bufio.go:126-151 | the next n bytes of the stream, unmoved; fewer only with the error that says why |
| BufReader.Reader.Discard | go-go1.11/src/bufio/bufio.go:157-183 | exactly the bytes counted are gone, n of them if there is no error; up to Buffered() that is certain and the source is not read |
| BufReader.Reader.Read | go-go1.11/src/bufio/bufio.go:190-231 | p gets the next n bytes of the stream and lastByte the last of them; an empty p only takes the pending error |
| BufReader.Reader.ReadByte | go-go1.11/src/bufio/bufio.go:236-247 | the next byte, or nothing and the error |
| BufReader.Reader.UnreadByte | go-go1.11/src/bufio/bufio.go:251-266 | lastByte is in front of the stream again, or the stream is unchanged; exactly when |
| BufReader.DiscardThenUnread | go-go1.11/src/bufio/bufio.go:157-266 | after a Discard without error UnreadByte undoes its last byte if and only if that byte is lastByte |
| BufReader.UnreadAfterDiscard | go-go1.11/src/bufio/bufio.go:157-266 | a run in which it puts another byte there |
| BufReader.ReadLineThenUnread | go-go1.11/src/bufio/bufio.go:251-403 | after a ReadLine without error, whose line and rest are given, UnreadByte undoes the last byte taken if and only if it is not a fragment shorter than the buffer, or that byte is a "\r" |
| BufReader.UnreadAfterLine | go-go1.11/src/bufio/bufio.go:251-403 | a run in which the "\r" put back comes twice and the byte before it is lost |
| BufReader.Reader.ReadSlice | go-go1.11/src/bufio/bufio.go:316-356 | a prefix of the stream that ends with the first delimiter, a full buffer without one, or all that is left |
| BufReader.Reader.ReadLine | go-go1.11/src/bufio/bufio.go:369-403 | fragments put together are the stream's lines without "\n" or "\r\n", even when these straddle the buffer; an error only with an empty line; a fragment is a full buffer, less a "\r" at its end; once a fill has given up nothing is lost but a line end; and what lastByte is |
| BufReader.LineOfFragment | go-go1.11/src/bufio/bufio.go:371-383 | a fragment that does not end in "\r" before "\n" can be cut off a line |
| BufReader.ReadAllLines | go-go1.11/src/bufio/bufio.go:369-403 | calling ReadLine to the end and joining fragments gives exactly the lines of the stream, however it is chopped up, unless a fill gave up |
| BufReader.AllLinesOfText | go-go1.11/src/bufio/bufio.go:369-403 | the lines that ReadAllLines reads from a text made of any lines, each ended by "\n" or "\r\n" but perhaps the last, are those lines |
| BufReader.Reader.ReadBytes | go-go1.11/src/bufio/bufio.go:411-449 | the stream through the first delimiter, or all of it with the error |
| BufReader.Reader.Assemble | go-go1.11/src/bufio/bufio.go:434-448 | full buffers and the last fragment fill the new slice exactly, in order |
| Scan.Scanner.SetErr | go-go1.11/src/bufio/scan.go:247-251 | the first error stays, except that another may follow EOF |
| Scan.Scanner.Advance | go-go1.11/src/bufio/scan.go:233-244 | it drops n bytes of the input if n is legal and changes nothing but err otherwise |
| Scan.Scanner.ReadMore | go-go1.11/src/bufio/scan.go:181-228 | shifting, doubling and reading keep the input; refused only for a full buffer of the largest size |
| Scan.Scanner.TrySplit | go-go1.11/src/bufio/scan.go:145-170 | what the split function says of the buffered bytes is what it says of the whole input |
| Scan.Scanner.Scan | go-go1.11/src/bufio/scan.go:134-230 | for a stable split function: the next token of the whole remaining input, however it is chopped up; it stops only at its end or with an exhausted buffer; and after an error the answer of the split function about what is buffered, as at EOF |
| Scan.ScanLinesStable | go-go1.11/src/bufio/scan.go:345-359 | ScanLines is stable |
| Scan.ScanBytesStable | go-go1.11/src/bufio/scan.go:284-289 | ScanBytes is stable |
| Scan.FirstLine | go-go1.11/src/bufio/scan.go:332-359 | a token of ScanLines is the first line of the text and leaves the others |
| Scan.ScanAllLines | go-go1.11/src/bufio/scan.go:134-251 | the documented loop yields exactly the lines of the input if and only if each fits the largest buffer, but for a last line without "\n" that fills it exactly; otherwise it ends with the buffer exhausted, having yielded the lines before |
| Scan.LinesOfText | go-go1.11/src/bufio/scan.go:332-359 | the lines of a text made of any lines without "\n" and "\r" at the end, each ended by "\n" or "\r\n" but perhaps the last, are those lines |
| Scan.ScanText | go-go1.11/src/bufio/scan.go:134-359 | so the loop over such a text yields exactly the lines it is made of |
| Scan.TooLongLine | go-go1.11/src/bufio/scan.go:187-193 | an exhausted buffer is the beginning of a line that does not fit |
| Scan.FitsButForTail | go-go1.11/src/bufio/scan.go:187-193 | the two bounds on line lengths differ only for a last line of exactly the buffer's size |
| Scan.ScanPastTooLong | go-go1.11/src/bufio/scan.go:134-230 | with ScanLines the call after ErrTooLong returns a token if and only if the buffer has room for a byte, and the call after that none |
| Scan.ScanShortBuffer | go-go1.11/src/bufio/scan.go:134-230 | a run from a new scanner: ErrTooLong, then a part of the token, then nothing |
| Utf8.FullRuneDecodes | go-go1.11/src/unicode/utf8/utf8.go:102-193 | once bytes hold a full rune, more of them change nothing |
| Utf8.DecodeEncode | go-go1.11/src/unicode/utf8/utf8.go:149-366 | decoding undoes encoding for every valid rune |
| Utf8.FirstRuneDecoded | go-go1.11/src/unicode/utf8/utf8.go:149-193 | a text that begins with the encoding of a valid rune decodes to that rune and its length, and one that begins with none to U+FFFD and one byte |
| Utf8.DroppedRune | go-go1.11/src/fmt/scan.go:347-357 | decoding without the unfinished rune at the end differs from decoding the whole text if and only if there is one |
| RuneReader.ReadRune.ReadByte | go-go1.11/src/fmt/scan.go:314-326 | the next byte in stream order, left-over bytes first |
| RuneReader.Leftover | go-go1.11/src/fmt/scan.go:347-363 | a bad rune uses one byte, and all left over but the last are continuation bytes |
| RuneReader.ReadRune.Gather | go-go1.11/src/fmt/scan.go:347-357 | the shortest prefix that holds a full rune; more than one byte only with nothing pending |
| RuneReader.ReadRune.Save | go-go1.11/src/fmt/scan.go:359-362 | the bytes saved are in front of the stream again, in order |
| RuneReader.ReadRune.Next | go-go1.11/src/fmt/scan.go:336-366 | the rune and size that decoding the whole remaining stream would give |
| RuneReader.ReadRune.Read | go-go1.11/src/fmt/scan.go:330-367 | the first of the upcoming runes, a peeked one included, with the bytes it took or, read again, the length of its encoding; an error only when there are none |
| RuneReader.ReadRune.UnreadRune | go-go1.11/src/fmt/scan.go:369-376 | the rune is upcoming again, or the call fails because one is pending already |
| RuneReader.ReadAll | go-go1.11/src/fmt/scan.go:301-376 | reading to the end yields the runes of the stream decoded at once |
| Utf8.RunesOfEncoded | go-go1.11/src/fmt/scan.go:301-376 | a text of encoded runes is read back as those runes |
| RuneReader.RereadBadByte | go-go1.11/src/fmt/scan.go:330-376 | a bad byte has size 1 when read and size 3 when read again |
| RuneReader.UnreadBeforeRead | go-go1.11/src/fmt/scan.go:301-376 | UnreadRune before any read puts U+0000 in front of the stream |
| BufWriter.Writer.Reset | go-go1.11/src/bufio/bufio.go:561-565 | buffered bytes and the error are dropped |
| BufWriter.Writer.Flush | go-go1.11/src/bufio/bufio.go:568-589 | nothing accepted is lost or repeated when the sink takes part of it; without an error the sink has it all |
| BufWriter.Writer.Write | go-go1.11/src/bufio/bufio.go:601-623 | exactly the first nn bytes are accepted, all of them unless there is an error; after one the sink is not touched |
| BufWriter.Writer.WriteByte | go-go1.11/src/bufio/bufio.go:626-636 | the byte is accepted exactly if there is no error |
| BufWriter.Writer.WriteRune | go-go1.11/src/bufio/bufio.go:640-666 | a prefix of the rune's bytes is accepted, all of them unless there is an error |
| BufWriter.Writer.RuneBytesEncode | go-go1.11/src/bufio/bufio.go:640-648 | the bytes written are the rune's encoding if and only if it is not negative |
| BufWriter.Writer.WriteString | go-go1.11/src/bufio/bufio.go:671-687 | as Write |
| BufWriter.WriteAll | go-go1.11/src/bufio/bufio.go:568-623 | writes and a flush deliver exactly what was written, or a prefix of it and an error |
| Search.FindIsLeast | go-go1.11/src/bytes/bytes.go:832-833 | the specification is the least matching offset, or -1 |
| Search.PolyFront | go-go1.11/src/bytes/bytes.go:922-925 | the first byte's share of the polynomial hash |
| Search.Roll | go-go1.11/src/bytes/bytes.go:929-934 | the polynomial hash of the next window |
| Search.RollWraps | go-go1.11/src/bytes/bytes.go:929-934 | the three uint32 steps give the wrapped hash of the next window |
| Search.HashStr | go-go1.11/src/bytes/bytes.go:946-959 | the wrapped polynomial hash, and by repeated squaring the wrapped power of the prime |
| Search.IndexRabinKarp | go-go1.11/src/bytes/bytes.go:918-939 | the least matching offset or -1 |
| Search.IndexShort | go-go1.11/src/bytes/bytes.go:847-884 | likewise, through the hand-over to the machine's own search |
| Search.IndexLong | go-go1.11/src/bytes/bytes.go:886-916 | likewise, through the hand-over to Rabin-Karp in mid-scan |
| Search.Index | go-go1.11/src/bytes/bytes.go:833-916 | likewise on every path and for every choice of thresholds |
| Split.CutsOfByte | go-go1.11/src/bytes/bytes.go:57-59 | counting one byte is counting its cuts |
| Split.Count | go-go1.11/src/bytes/bytes.go:52-69 | the number of non-overlapping instances; for an empty sep one more than the runes that decoding gives |
| Split.Explode | go-go1.11/src/bytes/bytes.go:29-48 | the runes, at most n pieces, within the array made for them |
| Split.ExplodedLength | go-go1.11/src/bytes/bytes.go:29-48 | there are as many pieces as the text decodes to runes |
| Split.ExplodedRune | go-go1.11/src/bytes/bytes.go:29-48 | the i-th piece decodes to the i-th rune alone |
| Split.CutsAreRunes | go-go1.11/src/bytes/bytes.go:52-55 | with an empty sep there is a cut for each rune and one at the end |
| Split.GenSplit | go-go1.11/src/bytes/bytes.go:216-241 | the pieces cut from the left with sepSave bytes kept, within the array made for them, for every n and an empty sep |
| Split.JoinPieces | go-go1.11/src/bytes/bytes.go:243-275 | joining the pieces of any SplitN with n != 0 gives the text back, for an empty sep too |
| Split.CutLength | go-go1.11/src/bytes/bytes.go:246-249 | there is a piece more than cuts, and at most n |
| Split.PiecesHoldNoSep | go-go1.11/src/bytes/bytes.go:264-267 | no piece of a full split contains sep |
| Split.SplitExactly | go-go1.11/src/bytes/bytes.go:264-267 | Split's pieces are the only ones that join to the text and each end at the first sep |
| Split.FlattenKept | go-go1.11/src/bytes/bytes.go:269-275 | the pieces of SplitAfter concatenate to the text |
| Split.JoinBytes | go-go1.11/src/bytes/bytes.go:387-407 | the pieces with sep between them, filling the precomputed buffer exactly |
| Split.Replace | go-go1.11/src/bytes/bytes.go:741-775 | the first n cuts joined with the new text, for an empty old text too, filling the precomputed buffer exactly |
| Split.ReplaceIsJoinOfPieces | go-go1.11/src/bytes/bytes.go:735-741 | for a non-empty old text this is joining the pieces of SplitN with the new one |
| Escape.ReferenceShrinks | go-go1.11/src/html/entity.go:2170-2172 | with such a table no reference gets longer |
| Escape.UnescapeNumeric | go-go1.11/src/html/escape.go:69-121 | a numeric reference in place, int32 wrap-around, Windows-1252 and invalid code points included |
| Escape.NumericReference | go-go1.11/src/html/escape.go:69-121 | digits of either base, hexadecimal ones in either case and with "x" or "X", are replaced by the rune of the number they write; zero and what is no rune by U+FFFD |
| Escape.NumberWritten | go-go1.11/src/html/escape.go:81-99 | the loop over digits gives the number they write, as an int32 |
| Escape.ReferenceIffDigit | go-go1.11/src/html/escape.go:69-107 | when "&#" is taken for a reference exactly if a digit follows, and that it is kept otherwise |
| Escape.DigitsMiscounted | go-go1.11/src/html/escape.go:107-110 | one text of each kind that is miscounted |
| Escape.UnescapeNamed | go-go1.11/src/html/escape.go:123-163 | a named reference in place: the full name, a pair of runes, or the longest prefix that is an entity |
| Escape.NamedReference | go-go1.11/src/html/escape.go:123-149 | a name in a table, with its ";" if there is one, is replaced by its one or two runes whatever follows |
| Escape.LongestEntity | go-go1.11/src/html/escape.go:149-163 | of any other name the longest beginning that is an entity is replaced, and it is kept if none is, given what entity.go says of the names without ";" |
| Escape.UnescapeEntity | go-go1.11/src/html/escape.go:56-164 | the replacement is written at dst, dst does not pass src, and the bytes from src on are untouched |
| Escape.UnescapeString | go-go1.11/src/html/escape.go:187-214 | in place with two cursors equals the left-to-right rewriting into a new text |
| Escape.EscapeString | go-go1.11/src/html/escape.go:166-180 | each of the five characters is replaced |
| Escape.UnescapeEscapedByte | go-go1.11/src/html/escape.go:166-172 | an escaped byte is read back as itself whatever follows |
| Escape.UnescapeEscape | go-go1.11/src/html/escape.go:174-177 | UnescapeString(EscapeString(s)) == s for every s |
| Escape.EscapedIsSafe | go-go1.11/src/html/escape.go:174-175 | of the five characters only "&" is left in an escaped text |
| EncodedWord.QDecode | go-go1.11/src/mime/encodedword.go:372-398 | the decoding specified byte by byte, within its buffer |
| EncodedWord.QDecodesQText | go-go1.11/src/mime/encodedword.go:144-158 | Q decoding undoes writeQString for all bytes |
| EncodedWord.QEncode | go-go1.11/src/mime/encodedword.go:114-141 | words of at most 75 bytes whose texts make up s rune by rune: decoded one by one the texts give the runes of s, so none ends inside a rune |
| EncodedWord.Encode | go-go1.11/src/mime/encodedword.go:35-66 | likewise for UTF-8, one word for another charset, and s itself if it needs no encoding; nothing but printable ASCII and tabs is in the result |
| EncodedWord.ChunksRunes | go-go1.11/src/mime/encodedword.go:114-141 | chunks that end between runes have the runes of the whole |
| EncodedWord.HeaderFits | go-go1.11/src/mime/encodedword.go:144-158 | encoded words are printable ASCII, whatever the text |
| EncodedWord.DecodeHeader | go-go1.11/src/mime/encodedword.go:240-312 | the decoding specified word by word, for every header |
| EncodedWord.DecodeHeaderOfWords | go-go1.11/src/mime/encodedword.go:240-312 | it undoes every division of a text into encoded words |
| EncodedWord.TextAroundWords | go-go1.11/src/mime/encodedword.go:240-312 | text before, between and behind two words is kept, except that blank text between them is dropped |
| EncodedWord.LowerHexRead | go-go1.11/src/mime/encodedword.go:400-424 | lower-case digits are read as upper-case ones |
| EncodedWord.FoldsCapitals | go-go1.11/src/mime/encodedword.go:314-356 | a charset name is known in any mixture of capitals |
| EncodedWord.EncodeThenDecode | go-go1.11/src/mime/encodedword.go:35-312 | DecodeHeader(Encode(charset, s)) == s for UTF-8 and every s that needs encoding; for the others if no word is decoded in s, and only then provided no word that is decoded to ASCII gets longer |
| EncodedWord.UnencodedWordIsDecoded | go-go1.11/src/mime/encodedword.go:35-40 | a text that needs no encoding may not come back |
| EncodedWord.ComesBack | go-go1.11/src/mime/encodedword.go:240-312 | a header comes back from DecodeHeader if no good word is found on the way through it, and one in ASCII only then, provided no word that is decoded to ASCII gets longer |
| EncodedWord.WordsShrinkIf | go-go1.11/src/mime/encodedword.go:314-356 | that proviso holds if base64 lengthens nothing, nor CharsetReader what it gives in ASCII; of the built-in charsets nothing is asked |
| EncodedWord.WordRestored | go-go1.11/src/mime/encodedword.go:325-356 | a CharsetReader for which a header with a word comes back |
| EncodedWord.Convert | go-go1.11/src/mime/encodedword.go:325-356 | the loops give the content in UTF-8: as it is, its bytes as runes, or its ASCII with U+FFFD for the rest |
| EncodedWord.Latin1Runes | go-go1.11/src/mime/encodedword.go:329-332 | the runes of what iso-8859-1 is converted to are the bytes of the content |
| EncodedWord.ConvertedAscii | go-go1.11/src/mime/encodedword.go:325-341 | a built-in charset converts to ASCII only without changing the length |
| MediaType.UnquotedQuoted | go-go1.11/src/mime/mediatype.go:57-70 | a quoted value is read back exactly if it has no line break |
| MediaType.NeedlessSlashesKept | go-go1.11/src/mime/mediatype.go:265-295 | a quoted path whose backslashes stand before token characters is read as it is |
| MediaType.TokenCharacters | go-go1.11/src/mime/grammar.go:13-23 | token characters are those RFC 2045 section 5.1 allows, listed apart |
| MediaType.UnquotedValue | go-go1.11/src/mime/mediatype.go:50-72 | a value is written without quotes, as it is, exactly if it consists of such characters and is not empty |
| MediaType.QuoteValue | go-go1.11/src/mime/mediatype.go:57-70 | the escaped value in quotes, refused exactly if some rune has the bit 0x80 |
| MediaType.PlainRunes | go-go1.11/src/mime/mediatype.go:62-68 | the bit tested is that of each rune of the value, and a text is ASCII exactly if its runes are below 0x80 |
| MediaType.NonAsciiWritten | go-go1.11/src/mime/mediatype.go:49-70 | a value that is not ASCII is written if and only if no rune has the bit and some rune is 0x100 or more |
| MediaType.LatinAWritten | go-go1.11/src/mime/mediatype.go:49-70 | "Ā" is such a value |
| MediaType.SortedKeys | go-go1.11/src/mime/mediatype.go:37-41 | the keys of the map in strictly increasing order |
| MediaType.IncreasingUnique | go-go1.11/src/mime/mediatype.go:37-41 | there is one such order, so the text does not depend on the map's |
| MediaType.FormatMediaType | go-go1.11/src/mime/mediatype.go:20-73 | type and sorted parameters, or the empty text exactly for an invalid type, a name that is no token or a value that cannot be written |
| MediaType.ParseMediaType | go-go1.11/src/mime/mediatype.go:111-209 | the parsing specified parameter by parameter, duplicates, trailing semicolons and the pieces of RFC 2231 included |
| MediaType.TrailingSemicolon | go-go1.11/src/mime/mediatype.go:131-209 | a semicolon behind a text that parses changes nothing if and only if the text was used up and putting its pieces together changes nothing; so with no pieces collected it never matters |
| MediaType.PieceLost | go-go1.11/src/mime/mediatype.go:136-209 | a text whose parameter is lost with a semicolon behind it |
| MediaType.EndAppended | go-go1.11/src/mime/mediatype.go:131-164 | the semicolon is what is left unread, alone or behind what was left before |
| Rfc2231.CountPercents | go-go1.11/src/mime/mediatype.go:325-345 | the count is negative exactly for a malformed text, and with it the buffer has the decoded length |
| Rfc2231.PercentHexUnescape | go-go1.11/src/mime/mediatype.go:325-362 | percent decoding, within the buffer made for it |
| Rfc2231.PiecesAtMost | go-go1.11/src/mime/mediatype.go:179-202 | the loop over n ends: there are no more consecutive pieces than names |
| Rfc2231.MissingUnique | go-go1.11/src/mime/mediatype.go:179-202 | it ends at the first missing piece |
| Rfc2231.StitchOne | go-go1.11/src/mime/mediatype.go:168-205 | the value that the pieces of one name give: the single encoded one, or all in unbroken order, each decoded if it is marked |
| Rfc2231.StitchAll | go-go1.11/src/mime/mediatype.go:166-207 | every name with pieces gets its value, in whatever order the map is walked |
| Rfc2231.PercentReadBack | go-go1.11/src/mime/mediatype.go:325-362 | what was percent-encoded is decoded to itself |
| Rfc2231.EscapeRead | go-go1.11/src/mime/mediatype.go:325-386 | "%" and two hexadecimal digits in either case are the byte they write |
| Rfc2231.EscapeRefused | go-go1.11/src/mime/mediatype.go:325-386 | and anything else behind "%" makes the text malformed |
| Rfc2231.CharsetDecoded | go-go1.11/src/mime/mediatype.go:211-232 | an encoded value is decoded exactly if its charset is us-ascii or utf-8 in whatever case, whatever its language |
| Rfc2231.DecimalWrites | go-go1.11/src/mime/mediatype.go:180-181 | pieces are numbered by decimal digits without zeros in front |
| Rfc2231.StitchPieces | go-go1.11/src/mime/mediatype.go:166-207 | a value cut into any numbered pieces, any of them percent-encoded, is put together again |
| Rfc2231.StitchOnePiece | go-go1.11/src/mime/mediatype.go:168-177 | and so is one that is encoded whole, with its charset |
| MediaType.ValueConsumed | go-go1.11/src/mime/mediatype.go:258-295 | a token or quoted value is consumed up to the next semicolon, or refused for a line break |
| MediaType.ParamConsumed | go-go1.11/src/mime/mediatype.go:297-323 | the text of a parameter gives its name and value and leaves the rest |
| MediaType.SpacedParam | go-go1.11/src/mime/mediatype.go:297-323 | and so with white space before, after and between its parts and capitals in its name |
| MediaType.TrimRightKeeps | go-go1.11/src/mime/mediatype.go:136-143 | trimming does not reach back over a character that is not a space, so no parameter is taken for a trailing semicolon |
| MediaType.ParamsParsed | go-go1.11/src/mime/mediatype.go:131-209 | formatted parameters give back their map, in whatever increasing order, or the error exactly if a value has a line break |
| MediaType.TypeParsed | go-go1.11/src/mime/mediatype.go:75-94 | a formatted type is accepted as it is |
| MediaType.SpacedType | go-go1.11/src/mime/mediatype.go:111-131 | a type with capitals and between white space is read in lower case without it |
| MediaType.FormattedIsParsed | go-go1.11/src/mime/mediatype.go:20-209 | the formatted text, in any increasing order of the names, parses to lower(t) and exactly p, or to the error exactly if a value has a line break |
| MediaType.FormatThenParse | go-go1.11/src/mime/mediatype.go:20-209 | for lower-case token names without "*", what was formatted is parsed back to lower(t) and exactly p, if and only if no value has a line break |
| AddrSelect.CommonPrefixLen | go-go1.11/src/net/addrselect.go:355-390 | the number of leading bits in common, of at most 32 or 64 |
| AddrSelect.CommonBits | go-go1.11/src/net/addrselect.go:343-346 | the specification: the bits before agree and the next differs |
| AddrSelect.SameSizeDisjoint | go-go1.11/src/net/addrselect.go:225-274 | no two entries with masks of one size contain the same address |
| AddrSelect.ClassifyIsLongestMatch | go-go1.11/src/net/addrselect.go:305-315 | in any table sorted by mask size, the longest matching prefix, or no entry if none matches |
| AddrSelect.ClassifyAnyOrder | go-go1.11/src/net/addrselect.go:276-315 | the order an unstable sort leaves makes no difference |
| AddrSelect.ClassifyByBytes | go-go1.11/src/net/addrselect.go:225-315 | the precedence and label that any sorted table gives an address, told from its first bytes |
| AddrSelect.ScopesByPrefix | go-go1.11/src/net/addrselect.go:329-343 | the scopes of IPv6 addresses by the prefixes of RFC 4291 and RFC 3879 |
| AddrSelect.MulticastScope | go-go1.11/src/net/addrselect.go:334-336 | the scope of a multicast address is what is written in its second byte behind the flags |
| AddrSelect.ScopesOfIpv4 | go-go1.11/src/net/addrselect.go:329-343 | the scopes of IPv4 addresses by their prefixes |
| AddrSelect.PrecedenceTellsFamily | go-go1.11/src/net/addrselect.go:225-274 | precedence 35 is that of all IPv4 addresses and no others |
| AddrSelect.StrictWeakOrder | go-go1.11/src/net/addrselect.go:96-214 | Less is irreflexive and transitive, and so is its being no better |
| AddrSelect.LessIsMerit | go-go1.11/src/net/addrselect.go:96-214 | of two destinations of one family one is first exactly if its tuple (reachable, matching scope, matching label, precedence, narrow scope, common prefix) is lexicographically greater; across families the prefix does not count |
| AddrSelect.Ipv6First | go-go1.11/src/net/addrselect.go:165-170 | by any sorted table a global IPv6 destination of the default entry comes before an IPv4 one, if both sources match in scope and label |
| AddrSelect.OrderNeedsTable | go-go1.11/src/net/addrselect.go:193-208 | with other precedences it would not be, because rule 9 is for IPv6 only |
| AddrSelect.ByRFC6724.Swap | go-go1.11/src/net/addrselect.go:85-90 | addresses, sources and attributes stay in step |

## Left out

- Aliasing of the slices that Peek, ReadSlice, ReadLine, Bytes and the splits return: the model returns their contents.
- Negative or too large counts returned by a reader or a writer, and the panics they cause.
- Readers that report bufio's or io's own sentinel errors as theirs: the source's error is EOF or a failure of its own.
- Memory and the width of lengths: an int overflow of a computed buffer length (Join, Replace) or of a Discard count is not modelled; exponents, code points and hashes do have their width.
- Contexts of other packages as parents (the goroutine of context.go:259-265), Deadline, Value and the timers' clock: a deadline is a bit that has passed or not.
- Reader.WriteTo, ReadRune, UnreadRune and ReadString; Writer.ReadFrom; ScanRunes and ScanWords.
- The contents of the entity table: the model asks that no replacement is longer than its name, and for the round trip that "amp;", "lt;" and "gt;" are in it.
- strings.Replacer, bytealg.Index, bytealg.Count, utf8.RuneCount and io.ReadFull: taken by their documented results. io.ReadFull does not return while a reader keeps giving nothing and no error; the model has no such reader.
- B encoding and charsets other than UTF-8, ISO-8859-1 and US-ASCII are functions the decoder is given; strings.EqualFold on charset names is by ASCII letters.
- In MediaType, strings.ToLower beyond ASCII is a function the model is given.
- In linkcheck, the HTTP requests and regular expressions (a page is what fetching it gives), the problems list, and log.Fatalf on a body that cannot be read.
- In addrselect, finding source addresses, parsing prefixes and the stable sort itself; IPNet.Contains compares the bits under the mask.
- The prime sieve, solitaire, bytes.Buffer, SRV shuffling, expvar and image geometry.
