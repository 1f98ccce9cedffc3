# explorer — a verified model of the single-column directory lister

`explorer` lists a directory. It reads the items in whatever order the
operating system returns them. Each item becomes a `File` record (name, kind,
size). The kind is Directory, Link or File, decided from the item's metadata.
While the list is built, the program tracks the widest name, starting from 10.
It then prints one line per entry with the entry's rendered name: directories
in blue with 20 spaces of padding inside the colour, regular files whose last
dot-separated segment is `exe` highlighted, and everything else verbatim. Two
other views exist but are not printed by this version: a kind label and a size
column. The size column divides the byte count by 1024 until it is below 1024,
rounds it to two decimals and appends a unit word.

The model has five modules, one per concern of `src/main.rs`:

- `Names` (`names.dfy`): the UTF-8 byte length that `str::len` reports, and
  `split(".")` / `.last()` as `Split` and `LastSegment`, with `Join` as the
  inverse of `Split`.
- `Terminal` (`terminal.dfy`): the three ANSI codes the program writes, and
  `Visible`, an independent definition of what a terminal shows of a string.
  Every `ESC … m` sequence is dropped.
- `Files` (`files.dfy`): `FileType`, the entry record, classification,
  `show_name` and `show_filetype`.
- `Size` (`size.dfy`): `show_size`. The division loop is a method with
  invariants, proved against `UnitCount`/`Scaled`. The two-decimal rounding,
  the unit `match` and the `"..."` placeholder are modelled too, along with the
  corrected, capped loop described under Findings.
- `Listing` (`listing.dfy`): the loop of `main`, which classifies each item,
  updates `max_name_len` and pushes the entry, plus `pretty_print` and their
  composition.

The filesystem and standard output are replaced by values. The directory read
is a `seq<DirItem>` in read order; each item's metadata is three flags and a
64-bit length. Printed output is a `seq<string>` of lines.

The record types follow the source's declarations: `Files.FileType` is
`enum FileType` (src/main.rs:6-10) and `Files.FileEntry` is `struct File`
(src/main.rs:12-17), built by `Files.ToFileEntry` as `File::new` does.

The unit ladder of `show_size` ends at tb: the `match count` at
src/main.rs:36-55 names units for counts 0 to 4 and sends every larger count
to the `_ => " bytes"` arm, while the division loop above it has no bound
(see Findings).

## Model

| member | source | states |
|---|---|---|
| `Names.Utf8Len` | src/main.rs:125 | The length compared against `max_name_len` is the UTF-8 byte count: at least the number of characters and at most four times it. |
| `Names.Utf8LenAscii` | src/main.rs:125 | For an all-ASCII name the byte length equals the character count. |
| `Names.Split` | src/main.rs:72 | `split(".")` yields one more piece than the name has dots (so at least one piece), and no piece contains a dot. |
| `Names.JoinSplit` | src/main.rs:72 | Gluing the pieces of `split(".")` back together with dots gives the original name. |
| `Names.JoinEndsWithLast` | src/main.rs:72 | The joined text ends with the last piece, and a dot precedes that piece whenever there is more than one. |
| `Names.LastSegment` | src/main.rs:72 | `split(".").last()` always yields a piece. That piece has no dot, is a suffix of the name, and is either the whole name or directly preceded by a dot. |
| `Names.LastSegmentUnique` | src/main.rs:72 | Those three facts determine the last segment: any dot-free suffix that is the whole name or follows a dot is it. |
| `Names.NoDotIsOwnSegment` | src/main.rs:72 | A name without a dot is its own suffix. |
| `Terminal.VisiblePlainPrefix` | src/main.rs:70-78 | Text with no escape character is shown as-is, in front of anything. |
| `Terminal.VisiblePlain` | src/main.rs:75-78 | A name with no escape character, printed verbatim, shows exactly itself. |
| `Terminal.AfterCodeParams` | src/main.rs:70-73 | The parameters of an escape code up to its closing `m` are consumed and nothing after them. |
| `Terminal.VisibleAfterCodes` | src/main.rs:70-73 | The blue, highlight and reset codes display nothing. |
| `Terminal.VisibleWrapped` | src/main.rs:70-73 | Plain text wrapped in the blue or highlight code and the reset displays exactly that text. |
| `Files.Classify` | src/main.rs:115-123 | Directory iff the directory flag is set; Link iff it is not and the symlink flag is; File otherwise, including when no flag is set. |
| `Files.ClassifyIgnoresFileFlag` | src/main.rs:121-123 | The file-flag branch never changes the outcome, because File is already the default. |
| `Files.ToFileEntry` | src/main.rs:129 | The pushed entry keeps the item's name and metadata length, with the classified kind. |
| `Files.Spaces` | src/main.rs:70 | `" ".repeat(n)`: exactly `n` characters, all spaces. |
| `Files.DirectoryPaddingIsSpaces` | src/main.rs:70 | The 20-space padding written after a directory's name is `" ".repeat(20)`. |
| `Files.IsExecutableName` | src/main.rs:72 | The `split(".").last().unwrap() == "exe"` test holds iff the name is exactly `exe` or ends in `.exe`. |
| `Files.ExeSegmentIffSuffix` | src/main.rs:72 | The last dot-separated segment is `exe` exactly when the name is `exe` or ends in `.exe`. |
| `Files.Trailer` | src/main.rs:70 | The only plain text added after a name is the directory padding, and it is added iff the entry is a directory. |
| `Files.ShowName` | src/main.rs:68-80 | The name is returned unchanged iff the entry is neither a directory nor a regular file whose last segment is `exe`. The result is never shorter than the name. |
| `Files.ShowNameVisible` | src/main.rs:68-80 | On screen the rendering of a name free of escape characters is the name itself, followed by 20 spaces for directories and nothing otherwise. |
| `Files.ShowDirectory` | src/main.rs:70 | A directory renders as `ESC[34m` + name + 20 spaces + `ESC[0m`. |
| `Files.ShowFileName` | src/main.rs:71-77 | A regular file renders as `ESC[33;32m` + name + `ESC[0m` when its last segment is `exe`, and as the raw name otherwise. |
| `Files.ShowLinkName` | src/main.rs:78 | A link renders as its raw name. |
| `Files.ExeSuffixHighlighted` | src/main.rs:72-73 | `program.exe` is highlighted. |
| `Files.BakSuffixNotHighlighted` | src/main.rs:72-75 | `program.exe.bak` is not highlighted. |
| `Files.DotlessNotHighlighted` | src/main.rs:72-75 | `Makefile` is not highlighted (a dot-less name is its own suffix), and a file named exactly `exe` is. |
| `Files.ShowFiletype` | src/main.rs:82-88 | Total over the three kinds: `"File"`, `"Directory"`, `"Link"`. |
| `Files.ShowFiletypeInjective` | src/main.rs:82-88 | Equal labels mean equal kinds, so the label identifies the kind. |
| `Size.Pow1024` | src/main.rs:29-31 | Each power of 1024 is at least 1. |
| `Size.Pow1024Monotonic` | src/main.rs:29-31 | Powers of 1024 grow with the exponent. |
| `Size.UnitCount` | src/main.rs:29-32 | The number of divisions places the size in its band: below 1024^(c+1), and at least 1024^c when c > 0. |
| `Size.UnitCountUnique` | src/main.rs:29-32 | Each size lies in exactly one band. |
| `Size.UnitCountAtLeast` | src/main.rs:29-32 | If 1024^c fits in the size, the loop divides at least c times. |
| `Size.Shrink` | src/main.rs:30 | The loop's repeated `new_size/1024.0`: k divisions of a non-negative value stay non-negative and never exceed it. |
| `Size.ShrinkVsPow` | src/main.rs:29-31 | After k divisions the value is at least 1024^j iff the original is at least 1024^(j+k), so the loop guard `new_size >= 1024.0` tests the size against the next power. |
| `Size.ShrinkBelow` | src/main.rs:29-31 | Dividing never raises a non-negative value, and at least one division strictly lowers a positive one. |
| `Size.GrowOfQuotient` | src/main.rs:29-31 | Multiplying by 1024 k+1 times undoes one division followed by k multiplications. |
| `Size.GrowShrink` | src/main.rs:29-31 | Multiplying back by 1024 k times undoes the loop's k divisions. |
| `Size.ShrinkPow` | src/main.rs:29-31 | Dividing 1024^j by 1024 k times leaves 1024^(j−k). |
| `Size.Scaled` | src/main.rs:28-32 | The value left after the loop is non-negative, below 1024, and not above the size. |
| `Size.CountUnits` | src/main.rs:27-32 | The division loop ends with `count == UnitCount(size)` and `new_size == Scaled(size)` (< 1024). |
| `Size.RoundHalfAway` | src/main.rs:34 | `round()` returns an integer within one half of its argument, and on a tie it goes away from zero for non-negative arguments. |
| `Size.Round2` | src/main.rs:34 | The rounded value is a whole number of hundredths. For a non-negative input it lies in (x − 0.005, x + 0.005], so halves round away from zero. |
| `Size.UnitSuffix` | src/main.rs:36-55 | Counts 0–4 give `" bytes"`, `" kb"`, `" mb"`, `" gb"`, `" tb"`; any larger count falls back to `" bytes"`. |
| `Size.ShowSize` | src/main.rs:24-66 | Kinds other than File give `"..."`. A File gives the formatted, rounded, scaled size followed by the unit of its division count. |
| `Size.SizeExamples` | src/main.rs:27-41 | 0 bytes is 0 in bytes; 1024 is 1 kb; 1536 is 1.5 kb. |
| `Size.UnitExponent` | src/main.rs:36-55 | A unit word stands for at most 1024^4 bytes (tb). |
| `Size.UnitExponentOfSuffix` | src/main.rs:36-55 | For counts 0–4 the chosen word stands for 1024^count bytes. For larger counts it stands for single bytes. |
| `Size.DenotedExactBelowPebibyte` | src/main.rs:29-55 | As written, the printed number and unit mean the true size iff the size is below 1024^5. |
| `Size.DenotedBelowPebibyte` | src/main.rs:29-51 | Below 1024^5 the printed number and unit mean the true size. |
| `Size.DenotedFromPebibyte` | src/main.rs:29-54 | From 1024^5 on, the printed number and unit mean strictly less than the true size. |
| `Size.PebibyteShownAsOneByte` | src/main.rs:29-54 | A 1024^5-byte file is divided five times, gives 1.0, and gets the unit `" bytes"`. |
| `Size.CappedCount` | src/main.rs:29-32 | The corrected division count never exceeds 4 (tb). |
| `Size.CountUnitsCapped` | src/main.rs:29-32 | The corrected loop stops at tb: the count is `min(UnitCount, 4)`, the value is the size divided by 1024 that many times, and it is below 1024 unless the count is 4. |
| `Size.CappedDenotesSize` | src/main.rs:36-55 | With the cap, the printed number and unit mean the true size for every 64-bit size. |
| `Listing.ListEntries` | src/main.rs:110-130 | One entry per item, in read order, each the item's classified entry. `max_name_len` is at least 10, at least every name's byte length, and equal to 10 or to some name's length, i.e. max(10, longest). |
| `Listing.PrettyPrint` | src/main.rs:91-99 | Exactly one line per entry, in list order. Each line is that entry's rendered name, which on screen shows the plain name (plus directory padding). |
| `Listing.ShowNamesVisible` | src/main.rs:91-99 | Every printed line whose entry name is free of escape characters shows on screen as that name plus its trailer. |
| `Listing.Run` | src/main.rs:110-132 | The program's output is one line per directory item, in read order: the item's rendered name. |

## Left out

- Reading the directory (`env::args`, `env::current_dir`, `fs::read_dir`, `metadata()`) and the panics of `unwrap()` on their failures: this is filesystem I/O. Items arrive as a sequence in read order, each with three flags and a length. The source calls `metadata()` afresh for each flag and for the length (src/main.rs:117, 119, 121, 129); the flags and length are left unconstrained with respect to each other, so every mix of answers those separate reads could give is covered.
- `OsString::to_str().unwrap()`: names are modelled as valid Unicode strings, so the panic on a name that is not valid UTF-8 is not modelled.
- `println!` and standard output: output is a sequence of lines, without the newline characters.
- Size.ShowSize: arithmetic is on exact reals, not `f32`. The `as f32` conversion, which rounds sizes above 2^24, is not modelled. `f32::to_string` is the parameter `formatNumber`. Division by 1024 is exact in `f32` in the range that matters, so the division count is the same for sizes `f32` represents exactly. The product `new_size * 100.0` at src/main.rs:34 is itself rounded to single precision before `round()`, so the printed hundredths can differ from `Round2` by one even for sizes `f32` holds exactly (for example 671319 bytes, 655.5849… kb, where the `f32` product is 65558.5, which `round()` takes to 65559, giving 655.59 while `Round2` gives 655.58).
- The `metadata` field of `File`, which nothing reads, and the `File::new` constructor, which is the datatype's constructor `FileEntry`.
- `max_name_len` is a `usize`. It is modelled as `nat`, because a name length cannot overflow it.
- Listing.PrettyPrint: the `max_name_len` argument is unused, as in the source. The commented-out table header and columns are not modelled.
- Column layout: src/main.rs prints one name per line; it has no column layout or terminal-width query, and `max_name_len` is computed but never used for output.

## Findings

| source | as written | input that shows it | evidently intended | confidence | as-written member | corrected member |
|---|---|---|---|---|---|---|
| src/main.rs:29-54 | the loop divides by 1024 without bound, and counts above 4 fall to the `_ => " bytes"` arm | a 1 PiB file, size 1125899906842624 (1024^5): count 5, value 1, printed as "1 bytes" | stop dividing at tb, so the number and unit always mean the true size ("1024 tb") | not executed; high that the arithmetic is as stated | `Size.PebibyteShownAsOneByte` | `Size.CappedDenotesSize` |
