# One billion rows: a verified model of three solvers

The repository solves the "one billion row challenge". It reads a text file of lines
`<station name>;<measurement>\n`. Each measurement has an optional `-`, one or two integer
digits, a `.` and one fractional digit. The program prints, for every station in ascending
name order, `name=min/mean/max` with one decimal, joined by `", "` inside braces.

This project models three of its solvers:

- **multithreaded** (`src/multithreaded.cpp`). It maps the file and cuts it into `n` ranges
  of about `size / n` bytes. Every range except the last ends at a newline. Each range is scanned
  into its own table by `process_measurements`, the tables are merged into the first, and the
  report is printed.
- **memory_map** (`src/memory_map.cpp`). One scan over the whole mapped file. It cuts each
  row at its first `;`, decodes the value with `parse_measurement`, and moves past the row's
  newline.
- **better** (`src/better.cpp`). It reads rows one by one and splits each at its last `;`.
  It turns the value text into hundredths by rewriting its last two characters in place, then
  folds the digits into an integer.

Values are fixed-point integers: tenths in multithreaded and memory_map, hundredths in
better. The modules are:

- `FixedPoint`: value decoding, printing and mean rounding.
- `Lines`: the file format and the records it holds.
- `Stats`: the per-station accumulator.
- `Tables`: the station table, folding records into it, and merging tables.
- `Output`: sorting and the report text.
- `Multithreaded`, `MemoryMap`, `Better`: one module per solver.

The central results are these:

- `Multithreaded.Solve` and `MemoryMap.Solve` print exactly `Render(Aggregate(records))`.
- `Tables.AggregateMeaning` says what `Aggregate` holds: for each station, the accumulator of
  exactly that station's measurements.
- `Tables.MergeAggregate` says that merging the per-range tables equals one pass over the file.
- `Better.BetterAgrees` says that better's table is the same table, in hundredths.

## Model

| member | source | states |
|---|---|---|
| FixedPoint.ValueEnd | src/memory_map.cpp:52-68 | a measurement text is 3 to 5 bytes long, and its last byte is a digit right after the `.` |
| FixedPoint.ValueDigits | src/memory_map.cpp:59-69 | the decoded value is `10*d1 + d2` with one integer digit and `100*d1 + 10*d2 + d3` with two, negated after `-`, and lies in [-999, 999] |
| FixedPoint.ParseMeasurement | src/memory_map.cpp:52-70 | `parse_measurement` returns the value of the measurement text that starts at the cursor, in tenths, within [-99.9, 99.9] |
| FixedPoint.DigitChar | src/memory_map.cpp:25 | the digit printed for `d < 10` is a decimal digit whose value is `d` |
| FixedPoint.DigitCharOfValue | src/memory_map.cpp:25 | printing the value of a digit gives that digit back |
| FixedPoint.NatText | src/memory_map.cpp:25 | the decimal text of `n` is non-empty digits with value `n` and no leading zero |
| FixedPoint.FixedText | src/multithreaded.cpp:22-25 | `print_fixed(is_negative, n)`: `-` when negative, then `n / 10`, `.` and the digit `n % 10` |
| FixedPoint.ValueText | src/multithreaded.cpp:43-47 | a minimum or maximum as printed: `print_fixed(v < 0, abs(v))` |
| FixedPoint.RenderedShape | src/memory_map.cpp:23-26 | `print_fixed(v < 0, abs(v))` prints the sign, one or two integer digits, `.` and the digit `abs(v) % 10` |
| FixedPoint.RenderThenDecode | src/memory_map.cpp:23-26 | every printed value in [-999, 999] is a measurement text that decodes back to the same value |
| FixedPoint.DecodeThenRender | src/memory_map.cpp:23-26 | a canonical measurement text (no leading zero, no `-0.0`) is printed back unchanged |
| FixedPoint.ShortRender | src/memory_map.cpp:25 | for one integer digit, `n / 10`, `.` and `n % 10` print the digits of the text |
| FixedPoint.LongRender | src/memory_map.cpp:25 | for two integer digits, `n / 10`, `.` and `n % 10` print the digits of the text |
| FixedPoint.RoundHalfUp | src/better.cpp:25-29 | `(a / c + 5) / 10` is `a / (10c)` rounded half up |
| FixedPoint.MeanTenths | src/multithreaded.cpp:35-41 | the printed mean magnitude is `abs(sum) / count` rounded half up to the nearest tenth |
| FixedPoint.TenthsBound | src/multithreaded.cpp:36-41 | `((abs(sum) * 10) / count + 5) / 10`, computed as written, is the half-up rounding of `abs(sum) / count` |
| FixedPoint.MeanHundredths | src/better.cpp:24-29 | the mean of hundredths, `(abs(sum) / count + 5) / 10`, is the half-up rounding of `abs(sum) / (10 * count)` |
| FixedPoint.MeansAgree | src/better.cpp:24-29 | the mean in hundredths of ten times the sums equals the mean in tenths |
| Stats.Observe | src/multithreaded.cpp:87-91 | one more measurement: the count goes up by one, and the value lies between the new minimum and maximum, which only widen |
| Stats.Combine | src/multithreaded.cpp:150-153 | one entry merged into another: max of the maxima, min of the minima, counts and sums added |
| Stats.SummarySnoc | src/multithreaded.cpp:87-91 | folding in one more value is observing it |
| Stats.SumAppend | src/multithreaded.cpp:89 | the running sum adds the new value |
| Stats.SummaryTotals | src/multithreaded.cpp:87-89 | after any run, the count is the number of values and the sum is their sum |
| Stats.SummaryExtremes | src/multithreaded.cpp:27-33 | an empty run leaves the sentinels (INT64_MAX and INT64_MIN); otherwise min and max are values of the run that bound all of them |
| Stats.FirstObservation | src/multithreaded.cpp:27-33 | the first measurement replaces both sentinels, giving `(v, v, v, 1)`, and min <= max afterwards |
| Stats.SummaryConcat | src/multithreaded.cpp:150-153 | combining the accumulators of two runs field-wise gives the accumulator of their concatenation |
| Stats.SummaryBounds | src/multithreaded.cpp:27-33 | the minimum never exceeds INT64_MAX and the maximum is never below INT64_MIN |
| Stats.CombineLaws | src/multithreaded.cpp:150-153 | the field-wise merge is commutative and associative, and an empty entry is its unit |
| Lines.FindIn | src/multithreaded.cpp:59 | `rawmemchr` kept inside a bound: the index of the first byte sought, or the bound when there is none |
| Lines.FindInFirst | src/memory_map.cpp:109 | no earlier byte in the searched part is the one sought |
| Lines.FindInIs | src/memory_map.cpp:116 | the first occurrence is the one found |
| Lines.FindInExtend | src/multithreaded.cpp:59 | searching further than a found byte finds the same byte, so an unbounded `rawmemchr` that starts inside the file and finds the byte before its end agrees with the bounded search |
| Lines.FindInFrom | src/memory_map.cpp:116 | searching from any point up to the first match finds the same byte |
| Lines.FindLastIn | src/better.cpp:64 | `find_last_of`: an index holding the byte, or -1 (`npos`) |
| Lines.FindLastInLast | src/better.cpp:64 | no byte after the one found is the one sought |
| Lines.FindLastInIs | src/better.cpp:64 | the last occurrence is the one found |
| Lines.Decode | src/memory_map.cpp:101-126 | a run of lines gives one record per line |
| Lines.DecodeConcat | src/memory_map.cpp:101-126 | the records of two runs of lines are those of each, in order |
| Lines.ExactIsTolerated | src/memory_map.cpp:116-125 | a file in the strict format is one the memory_map scan reads |
| Lines.ConsLine | src/multithreaded.cpp:54-93 | a span of lines is its first line followed by the rest |
| Lines.ConsValues | src/multithreaded.cpp:54-93 | a line with a value text followed by a span of such lines is such a span |
| Lines.SplitLines | src/multithreaded.cpp:131-138 | cutting a span of lines after a newline splits its list of lines in two |
| Lines.SplitValues | src/multithreaded.cpp:131-138 | both parts of a span cut after a newline are in the format |
| Lines.SplitSpan | src/multithreaded.cpp:131-138 | cutting a file at a line start splits its records into those before and those after |
| Lines.EndsWithNewline | src/multithreaded.cpp:93 | a non-empty span of lines ends with a newline |
| Lines.FirstLine | src/multithreaded.cpp:54-93 | a non-empty span starts with a line holding a `;` and a value text after it, and the rest is again such a span |
| Lines.FirstRecord | src/memory_map.cpp:119-125 | a span's records are its first line's record followed by the records of the rest |
| Lines.NextLine | src/memory_map.cpp:109-125 | the unbounded search for `;` finds the current line's first `;`, the value starts right after it, and the rest is a span |
| Lines.RecordOfLine | src/memory_map.cpp:109-117 | a line's record is the bytes before its first `;` and the value decoded after it |
| Lines.KeyBeforeFirstSemicolon | src/memory_map.cpp:109-114 | the station name is exactly the prefix before the first `;` and holds no `;` |
| Lines.SomeRecord | src/multithreaded.cpp:164-165 | a non-empty file holds at least one record, so the first entry exists |
| Tables.Update | src/multithreaded.cpp:87-91 | `measurements[station_name]`, default-constructed when absent, observes the record's value |
| Tables.UpdateEffect | src/multithreaded.cpp:87-91 | a record adds its key and changes only that key's entry: count plus one, sum plus the value, value between min and max |
| Tables.AccumulateConcat | src/multithreaded.cpp:54-94 | folding two runs one after the other is folding their concatenation |
| Tables.AccumulateCons | src/memory_map.cpp:119-125 | folding a run is updating with its first record and then folding the rest |
| Tables.RowFold | src/memory_map.cpp:102-126 | one loop step keeps the table plus the rest of the file equal to the final table |
| Tables.AccumulateCounted | src/multithreaded.cpp:88 | every entry of a table holds at least one measurement |
| Tables.ValuesForConcat | src/multithreaded.cpp:147-154 | a station's measurements in two runs are those of each run, in order |
| Tables.KeysOfConcat | src/multithreaded.cpp:147-154 | the stations of two runs are the union of each run's stations |
| Tables.AggregateMeaning | src/memory_map.cpp:119-123 | one pass has an entry for exactly the stations of the file, and each entry is the accumulator of exactly that station's measurements |
| Tables.Merge | src/multithreaded.cpp:147-154 | every key of the other table gets the main table's entry, default-constructed when absent, combined with its own; the main table's other keys keep their entries |
| Tables.MergeAggregate | src/multithreaded.cpp:142-155 | merging the tables of two runs gives the table of one pass over both |
| Tables.MergeAggregateAt | src/multithreaded.cpp:148-153 | one station's merged entry is its entry in one pass over both runs |
| Output.Less | src/multithreaded.cpp:158-160 | `lhs.first < rhs.first` on names: byte-wise lexicographic order, a proper prefix first |
| Output.LessIrreflexive | src/multithreaded.cpp:158-160 | no name sorts before itself |
| Output.LessTransitive | src/multithreaded.cpp:158-160 | name order is transitive |
| Output.LessTotal | src/multithreaded.cpp:158-160 | any two different names are ordered one way or the other |
| Output.Insert | src/multithreaded.cpp:157-160 | inserting a name adds exactly that name |
| Output.InsertSorted | src/multithreaded.cpp:157-160 | inserting a new name into an ascending list keeps it ascending |
| Output.SortedKeys | src/multithreaded.cpp:157-160 | the table's names, strictly ascending, each exactly once |
| Output.SortedUnique | src/multithreaded.cpp:157-160 | only one strictly ascending list holds a given set of names |
| Output.SortKeys | src/multithreaded.cpp:157-160 | sorting the table's entries gives its names in ascending order |
| Output.EntryText | src/multithreaded.cpp:34-48 | `Information::print`: the name, `=`, then min, mean and max separated by `/`, the mean signed by the sum |
| Output.Render | src/multithreaded.cpp:157-171 | the report: `{`, the entries in ascending name order separated by `", "`, `}` and a newline |
| Output.EntriesStep | src/multithreaded.cpp:167-170 | each further entry is printed after `", "` |
| Output.PrintEntries | src/multithreaded.cpp:164-170 | the printed entries are the first entry, then `", "` before each further one |
| Output.Report | src/multithreaded.cpp:157-171 | the output is `{`, the entries in ascending name order, `}` and a newline |
| Multithreaded.RangeStop | src/multithreaded.cpp:135 | the next range starts one past the previous range's newline, never past the end of the file |
| Multithreaded.ParseInPlace | src/multithreaded.cpp:68-85 | the inlined decoding gives `parse_measurement`'s value, and the cursor stops on the fractional digit |
| Multithreaded.ProcessRow | src/multithreaded.cpp:55-93 | one row updates its station with its value, and `curr += 2` lands at the next line |
| Multithreaded.ScanRow | src/multithreaded.cpp:54-94 | one loop step keeps the table plus the rest of the range equal to the final table |
| Multithreaded.ProcessMeasurements | src/multithreaded.cpp:53-95 | the table after a range is the one passed in, with the range's records folded in |
| Multithreaded.RangeEnd | src/multithreaded.cpp:133 | a range ends at the first newline at or after `curr + delta`, or at the end of the file |
| Multithreaded.PartitionAsWritten | src/multithreaded.cpp:131-136 | the `n - 1` newline ends found as written, or `None` when a search would start past the end of the file |
| Multithreaded.PartitionOverrun | src/multithreaded.cpp:131-136 | for `"a;1.0\n"` and 3 threads the second search starts past the end of the file |
| Multithreaded.AsWrittenStep | src/multithreaded.cpp:132-136 | when the as-written loop stays inside the file, each end is a newline and the next range starts after it |
| Multithreaded.Cuts | src/multithreaded.cpp:129-138 | `n` ranges are cut |
| Multithreaded.CutsPlaced | src/multithreaded.cpp:131-138 | the ranges start at 0, end at the file size, and each begins at a line start where the last one ended |
| Multithreaded.CutsAsWritten | src/multithreaded.cpp:131-136 | wherever the as-written loop stays inside the file, the corrected ranges end where it does |
| Multithreaded.Partition | src/multithreaded.cpp:129-138 | the corrected partition covers the file in `n` line-aligned ranges and agrees with the source wherever the source stays inside the file |
| Multithreaded.CutsFacts | src/multithreaded.cpp:129-138 | the facts `Partition` promises, for any `delta` |
| Multithreaded.CutRanges | src/multithreaded.cpp:131-138 | the loop builds exactly the ranges `Cuts` describes |
| Multithreaded.MergeNoneAll | src/multithreaded.cpp:147 | merging no entries leaves the main table, and merging all of them is the whole merge |
| Multithreaded.MergeOneMore | src/multithreaded.cpp:147-154 | merging one more entry of the other table combines it into the main table's entry for that key |
| Multithreaded.MergeEntry | src/multithreaded.cpp:148-153 | `main[k]`, default-constructed when absent, takes max of max, min of min, and the sum of counts and of sums |
| Multithreaded.MergeInto | src/multithreaded.cpp:147-154 | the loop over a thread's table yields the merge of that table into the main one |
| Multithreaded.RangeSpan | src/multithreaded.cpp:131-138 | a line-aligned range is in the format, and the records before its end split at its start |
| Multithreaded.ProcessRange | src/multithreaded.cpp:134 | each thread's table is the table of one pass over its range |
| Multithreaded.ProcessRanges | src/multithreaded.cpp:131-138 | every range gets the table of its own records |
| Multithreaded.MergeTables | src/multithreaded.cpp:142-155 | merging the threads' tables into the first gives the table of one pass over the whole file |
| Multithreaded.Solve | src/multithreaded.cpp:100-171 | for any number of threads, the output is the sorted report of the table of one pass over the file |
| MemoryMap.Strchr | src/memory_map.cpp:109 | `strchr`: the first byte sought, or none when a NUL byte or the end of the file comes first |
| MemoryMap.StrchrFinds | src/memory_map.cpp:109 | `strchr` finds a byte exactly when the bounded search finds it with no NUL byte before it, and both find the same byte |
| MemoryMap.NulStopsStrchr | src/memory_map.cpp:109-116 | a NUL byte in a station name, or among the bytes skipped after a value, stops `strchr` where the bounded search goes on |
| MemoryMap.RowSearches | src/memory_map.cpp:109-116 | in a NUL-free file, the first `strchr` finds the row's first `;` and the second finds the row's newline |
| MemoryMap.ProcessRow | src/memory_map.cpp:102-125 | one row of a NUL-free file: the name runs to the first `;`, the value is decoded after it, the entry is updated, and the cursor moves past the newline |
| MemoryMap.ScanRow | src/memory_map.cpp:102-126 | one loop step keeps the table plus the rest of the file equal to the final table |
| MemoryMap.ScanFile | src/memory_map.cpp:101-126 | on a NUL-free file, the scan builds the table of one pass over every record |
| MemoryMap.Solve | src/memory_map.cpp:96-142 | on a NUL-free file, the output is the sorted report of that table |
| MemoryMap.CarriageReturnSkipped | src/memory_map.cpp:116-125 | the bytes between the value and the newline are skipped, so a `\r\n` row is read as its value |
| Better.ScaleToHundredths | src/better.cpp:69-71 | the in-place rewrite moves the last character two places left and writes `0` after it |
| Better.ParseHundredths | src/better.cpp:39-49 | the loop folds the digits after an optional `-` into an integer, negated after `-` |
| Better.ScaledValue | src/better.cpp:68-73 | for a measurement text, the rewritten text parses to ten times its value in tenths, that is, the value in hundredths |
| Better.SplitLastIs | src/better.cpp:64-66 | the name runs up to the last `;` and the text follows it; with no `;`, both are the whole row |
| Better.SplitAtLast | src/better.cpp:64-66 | name, `;` and text rebuild the row, and the text holds no `;` |
| Better.SplitKnown | src/better.cpp:64-66 | a row `name;text` whose text has no `;` splits into that name and that text |
| Better.RowRecord | src/better.cpp:64-73 | a row's record: the name before the last `;` and the rewritten, parsed measurement text after it |
| Better.RowRecords | src/better.cpp:61-73 | one record per row read |
| Better.RowRecordsSnoc | src/better.cpp:61-80 | the records of one more row are those before it plus its own |
| Better.ReadMeasurement | src/better.cpp:66-73 | copying the text, rewriting it and parsing it gives the hundredths the row's record holds |
| Better.ProcessRow | src/better.cpp:64-79 | one row updates its station, named up to the last `;`, with its value in hundredths |
| Better.AccumulateSnoc | src/better.cpp:61-80 | folding one more row's record is updating with it |
| Better.Solve | src/better.cpp:58-86 | the table is one pass over the rows, and the names come out in ascending order |
| Better.MeanTextAgrees | src/better.cpp:24-34 | better's printed mean of sums in hundredths is the text multithreaded prints for the same sums in tenths |
| Better.MeanText | src/better.cpp:24-34 | the mean better prints: the sign of the sum, then the hundredths mean rounded to tenths, `/ 10`, `.` and `% 10` |
| Better.ScaleTable | src/better.cpp:17 | converting a table to hundredths keeps its stations |
| Better.ScaleValuesSnoc | src/better.cpp:75-79 | scaling one more value appends it times ten |
| Better.ObserveScaled | src/better.cpp:75-79 | observing a value in hundredths is observing it in tenths, scaled |
| Better.FirstScaled | src/better.cpp:18-19 | the sentinels give way to the first value in either unit |
| Better.ScaledSummary | src/better.cpp:75-79 | once a station has values, the accumulator of its values in hundredths is its accumulator in tenths, scaled |
| Better.ValuesForScaled | src/better.cpp:75 | a station's values in hundredths are its values in tenths, times ten |
| Better.ValuesForInRange | src/better.cpp:75-79 | a station's values lie in [-999, 999] when all values do |
| Better.AggregateScaled | src/better.cpp:58-80 | the table of the values in hundredths is the table in tenths, scaled |
| Better.Texts | src/better.cpp:61 | one row per line of the file |
| Better.LinesGood | src/better.cpp:61-66 | every line of a file in the format has a `;` and a measurement text that runs to its end |
| Better.RowOfLine | src/better.cpp:64-73 | for a line in the format, the row split at its last `;` gives the same name as the first `;`, and ten times the value |
| Better.SplitInPlace | src/better.cpp:64-66 | a row with a `;` and no `;` after it splits there into the name before it and the text after it |
| Better.ValueTextOf | src/better.cpp:66 | the value text of a line is a measurement text without `;`, and its value is `parse_measurement`'s |
| Better.RowsCons | src/better.cpp:61-73 | a row agreeing with its line, followed by agreeing rows, gives agreeing rows |
| Better.ScaleRecordsCons | src/better.cpp:73 | scaling a record list that starts with `r` starts with `r` scaled |
| Better.RowsStep | src/better.cpp:61-73 | the row of a line in the format agrees with the line's record |
| Better.RowsOfLines | src/better.cpp:61-73 | the rows of well-formed lines can be read, and their records are the lines' records in hundredths |
| Better.BetterAgrees | src/better.cpp:58-80 | on a file in the format, better's table is memory_map's and multithreaded's table with every value in hundredths |

## Left out

- File I/O is not modelled: `open`, `fstat`, `mmap`, `munmap`, `close`, `ifstream` and `getline`. Nor are their error paths. The file is a `seq<char>` parameter, and for better a sequence of rows.
- Threads are not modelled. `hardware_concurrency()` becomes the parameter `n >= 1`. The ranges are processed one after another and the threads' tables are merged in order. Joining and scheduling cannot change the result, because each thread owns its table.
- Multithreaded.ProcessMeasurements: the table passed by reference is modelled as a value passed in and returned.
- `rawmemchr`, which has no bound, is modelled as a search bounded by the file's end. The two agree whenever the search starts inside the file and the byte occurs before its end, as `Lines.FindInExtend` shows. That covers every `;` search at src/multithreaded.cpp:59 on a file in the format, and every partition search at src/multithreaded.cpp:133 except the one recorded under "## Findings".
- `strchr` in memory_map is `MemoryMap.Strchr`, which also stops at a NUL byte. The format itself allows NUL bytes, but `strchr` would then return a null pointer (`MemoryMap.NulStopsStrchr`). So MemoryMap.ScanFile and MemoryMap.Solve require a file with no NUL byte: every byte of a row lies before the `;` or the newline that one of the row's two searches looks for. What memory_map does on a file with a NUL byte is not modelled.
- The format requires a final newline, and a file without one is not modelled. On such a file memory_map's newline search at src/memory_map.cpp:116 reads past the end of the file. multithreaded handles it, since `curr += 2` (src/multithreaded.cpp:93) moves past the end and ends the loop at src/multithreaded.cpp:54, unless a partition search at src/multithreaded.cpp:133 starts inside the last line. better's `getline` returns the last line as a row.
- Stats.Observe: integers are unbounded, so 64-bit overflow of `sum`, `abs(sum) * 10` and `num_measurements` is not modelled. The sentinels keep their INT64_MAX and INT64_MIN values.
- The hash map (`ankerl::unordered_dense::map`, `std::unordered_map`) is a `map`. `reserve(5000)` and iteration order are left out. Iteration order only matters before sorting.
- Output.SortKeys sorts by insertion rather than `std::sort`. Only the result matters: the strictly ascending list of names, which `Output.SortedUnique` shows is unique.
- Better.Solve returns the table and the sorted names, not the output text. better prints min and max as `double / 100` with `std::fixed` and `setprecision(1)` (src/better.cpp:33, 35, 88), and floating-point formatting is not modelled. Its mean is modelled, by `Better.MeanTextAgrees`.
- Better.RowRecord: a value text shorter than two characters makes the rewrite at src/better.cpp:69-71 index out of range, which is undefined behaviour. The model requires `Readable` rows and gives such rows the value 0.
- Better.Texts: `getline` also returns a last line that has no newline. The model takes the lines of a file in the format, which all end with a newline.
- A negative mean that rounds to zero prints `-0.0`, as the source does. `FixedPoint.DecodeThenRender` therefore excludes `-0.0` from canonical texts.
- `src/naive.cpp`, `src/main.cpp` and `src/solutions.h` are not part of this model.

## Findings

| source | as written | input that shows it | evidently intended | confidence | as-written member | corrected member |
|---|---|---|---|---|---|---|
| src/multithreaded.cpp:131-136 | each of the first `n - 1` ranges ends at `rawmemchr(curr + delta, '\n')`, even when `curr + delta` is already past the end of the file | the file `a;1.0\n` (6 bytes) with 3 threads: `delta` is 2, the first range ends at the newline at 5, and the second search starts at byte 8, past the end of the file | a range whose search would start at or past the end ends at the end of the file, and the ranges after it are empty | not executed | Multithreaded.PartitionAsWritten, Multithreaded.PartitionOverrun | Multithreaded.Partition |
