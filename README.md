# btrfs status exporter: row decoding model

This project models the decision logic of a small Telegraf `exec` input
that reports btrfs health. The program runs three `btrfs` subcommands per
mount (`device stats`, `filesystem usage --raw`, `scrub status -d`). A
TextFSM template engine splits each output into rows of string columns.
The program then turns every row into an InfluxDB point.

The model covers:

- **Device stats.** Each row (device name, five counters) becomes one
  `btrfs_device_errors` point. The device is a tag and the counters are
  integer fields (`DeviceStats`).
- **Filesystem usage.** Three anchor columns are tested in a fixed order:
  column 0 first, then column 12, then column 16. The first one that is
  filled in picks the variant: the "Overall" summary, an aspect summary
  line, or a device line inside an aspect. A row with none of the three
  emits nothing. Each variant builds its own `btrfs_filesystem` point
  (`FilesystemUsage`).
- **Scrub status.** Each row becomes one `btrfs_scrub` point. The elapsed
  time "H:M:S" is reshaped into a Go duration and counted in seconds. The
  rate loses one trailing "/s" before it is byte-parsed. The status word is
  copied through as a string. The four error counters are all zero when the
  checksum column is empty, and otherwise must all parse (`ScrubStatus`).
- **Skip-on-error loops.** Each of the three parse functions drains its row
  stream. A row whose conversion fails is dropped and the loop goes on. All
  points of one call share the timestamp taken when the call starts. The
  call reports an error only when the template engine cannot be set up
  (`Points.Emitted` and the three `Parse*` methods).
- **Mount enumeration.** Only `btrfs` lines of the mount table are used, and
  only the first mount of each device is kept, in table order (`Mounts`).

Integer conversion is Go's `strconv.Atoi` on a 64-bit platform: an optional
sign, a non-empty run of decimal digits, and a value inside the signed
64-bit range (`Strconv`). `strings.Split` and `strings.TrimSuffix` are
modelled with their inverses (`Strings`).

Three conversions are done by libraries outside this model:
`strconv.ParseFloat`, `bytefmt.ToBytes` and `time.ParseInLocation`. Each is
a partial-function parameter bundled in `Points.Codecs`, where `None` stands
for the library's error return. The timestamp `ts` (the source's
`time.Now()`) is a parameter too. The row stream is a finite sequence: the
end of the sequence is the channel being closed. The stream is `None` when
the template engine could not be built.

Rows are as wide as their template: 6 columns for device stats, 18 for
filesystem usage and 11 for scrub status. The template engine emits one
column per template value, so every row has that width, and the model
requires it. (Each `Decoder` turns a narrower row into `None` only so that
it is a total function; the loops never meet such a row.) Where the source
itself would index past the end, the model requires enough entries too: a
scrub row whose start time parses must have an elapsed time with at least
two colons, and every mount-table line must have at least three fields.

The code does not do the following, and neither does the model:

- It does not map the scrub status word to an integer code; the word stays a string.
- It does not treat an empty device id as the end of the stream; such a row is decoded like any other.
- It does not make the scrub counters optional one by one; they are all-or-nothing on column 7.
- It does not abort the call on a conversion failure; the row is skipped.

## Model

| member | source | states |
|---|---|---|
| `Strconv.Atoi` | main.go:186 | a successful parse lies in the 64-bit range; the empty string fails; a result without a leading '-' is non-negative |
| `Strconv.AtoiItoa` | main.go:186 | every 64-bit integer, rendered in decimal, parses back to itself |
| `Strings.SplitInverse` | main.go:558 | about `Strings.Split`: the pieces contain no separator, and joining them with it gives back the input |
| `Strings.SplitJoin` | main.go:558 | about `Strings.Split`: splitting a join of separator-free pieces returns exactly those pieces |
| `Strings.TrimSuffix` | main.go:580 | with the suffix present, the result plus the suffix is the input; otherwise the input is unchanged |
| `Strings.TrimSuffixAppended` | main.go:580 | trimming undoes one appended suffix and no more |
| `Points.Emitted` | main.go:176-253 | a loop emits at most one point per row |
| `Points.EmittedStep` | main.go:176-252 | one more row adds its decoding, when there is one, after the points of the earlier rows |
| `Points.EmittedAppend` | main.go:176-253 | the points of a concatenated stream are the points of its parts, in order |
| `Points.EmittedSkip` | main.go:186-193 | a row that fails to convert is dropped, and the rows after it are still processed |
| `Points.EmittedMember` | main.go:235-252 | a point is emitted iff some row of the stream decodes to it |
| `Points.EmittedAllDecoded` | main.go:176-253 | when every row decodes, there is one point per row, in row order |
| `DeviceStats.ConvertCounters` | main.go:185-238 | the counters exist iff every counter column parses, and then they are the parsed values in column order |
| `DeviceStats.DecodeDeviceStats` | main.go:183-250 | a decoded row gives a `btrfs_device_errors` point carrying the call's timestamp |
| `DeviceStats.DecodeDeviceStatsSpec` | main.go:183-250 | a point exists iff all five counters parse; its tags are exactly mount and device (column 0); its fields are exactly the five `*_io_errors` counters from columns 1 to 5, in order |
| `DeviceStats.ParseDeviceStats` | main.go:148-255 | returns an error only when the engine is missing; otherwise the points are exactly those of the rows that decode, in row order |
| `DeviceStats.DeviceStatsPoints` | main.go:149-250 | every point of one call has the mount tag and the call's single timestamp, and is the decoding of a row of the stream all of whose counters parsed, carrying its device |
| `DeviceStats.DeviceStatsRoundTrip` | main.go:185-246 | a row rendered from a device name and five 64-bit counters decodes to a point holding that device and those counters |
| `DeviceStats.CountersOfRow` | main.go:185-238 | counter columns that each parse to a value convert to exactly those values |
| `DeviceStats.HealthyDeviceExample` | main.go:183-250 | the row `sda 0 0 0 0 0` under mount /data gives one point tagged {mount=/data, device=sda} with all counters zero |
| `FilesystemUsage.Classify` | main.go:292-497 | Overall iff column 0 is non-empty; aspect summary iff column 0 is empty and column 12 is not; aspect device iff columns 0 and 12 are empty and column 16 is not; unclassified iff all three are empty |
| `FilesystemUsage.ConvertColumns` | main.go:294-391 | the first n Overall columns convert iff each one does (integers, with floats for columns 7 and 8), and then the values are those conversions in column order |
| `FilesystemUsage.DecodeOverall` | main.go:293-414 | a decoded Overall row gives a `btrfs_filesystem` point tagged exactly {mount, aspect=Overall} with the call's timestamp |
| `FilesystemUsage.DecodeOverallSpec` | main.go:293-414 | an Overall row yields a point iff columns 0 to 6, 9 and 10 parse as integers and columns 7 and 8 as floats; tags are exactly {mount, aspect=Overall}; the eleven fields are exactly the converted columns 0 to 10, each under its own name |
| `FilesystemUsage.DecodeAspectSummary` | main.go:419-464 | a decoded summary row gives a `btrfs_filesystem` point tagged exactly with mount, aspect (column 11) and type (column 12), at the call's timestamp |
| `FilesystemUsage.DecodeAspectSummarySpec` | main.go:419-464 | a point exists iff columns 13 and 14 parse as integers and column 15 as a float; tags are exactly mount, aspect (column 11) and type (column 12); fields are exactly size, used and used_percent |
| `FilesystemUsage.DecodeAspectDevice` | main.go:469-494 | a decoded device row gives a `btrfs_filesystem` point tagged exactly with mount, aspect (column 11) and device (column 16), at the call's timestamp |
| `FilesystemUsage.DecodeAspectDeviceSpec` | main.go:469-494 | a point exists iff column 17 parses; tags are exactly mount, aspect (column 11) and device (column 16); the only field is `device_size` from column 17 |
| `FilesystemUsage.DecodeUsage` | main.go:292-497 | every usage point is a `btrfs_filesystem` point with the mount tag and the call's timestamp |
| `FilesystemUsage.UsageVariantOfPoint` | main.go:292-497 | an unclassified row emits nothing; a point's tags show its variant: exactly {mount, aspect} for Overall, a `type` tag for a summary, a `device` tag for a device line |
| `FilesystemUsage.ParseFilesystemUsage` | main.go:257-502 | returns an error only when the engine is missing; otherwise the points are exactly those of the rows that classify and decode, in row order |
| `FilesystemUsage.FilesystemUsagePoints` | main.go:258-497 | every point of one call has the mount tag and the call's single timestamp, and is the decoding of a classified row of the stream |
| `ScrubStatus.ScrubDurationParts` | main.go:557-561 | about `ScrubStatus.ScrubDuration`: the column "h:m:s" of colon-free parts splits into at least three pieces and is parsed as the components h, m and s |
| `ScrubStatus.ScrubDurationSeconds` | main.go:557-569 | about `ScrubStatus.ScrubDuration`: "H:M:S" with decimal parts parses iff H*3600 + M*60 + S seconds fit Go's 64-bit nanosecond count, and then the duration is H*3600 + M*60 + S |
| `ScrubStatus.ScrubDurationMillis` | main.go:557-569 | about `ScrubStatus.ScrubDuration`: "H:M:" with decimal parts reshapes to "<H>h<M>ms": it parses iff H hours plus M milliseconds fit the nanosecond count, and the duration is H*3600 + M div 1000 seconds |
| `ScrubStatus.ScrubDurationEmptyPart` | main.go:557-568 | about `ScrubStatus.ScrubDuration`: an empty hours or minutes part makes the duration fail, so the row is dropped |
| `ScrubStatus.ClockDurationExample` | main.go:557-569 | the column "0:12:34" is 754 seconds |
| `ScrubStatus.MillisDurationExample` | main.go:557-569 | the column "5:3:" is 18000 seconds |
| `ScrubStatus.DurationRoundTrip` | main.go:557-569 | an elapsed time printed as HH:MM:SS, each part below 100 and printed with two digits, parses back to the same number of seconds |
| `ScrubStatus.ScrubRateSuffix` | main.go:580 | about `ScrubStatus.ScrubRate`: the rate is byte-parsed after exactly one trailing "/s" is removed; a rate without that suffix is parsed unchanged |
| `ScrubStatus.ScrubCounters` | main.go:589-632 | an empty checksum column gives four zeros; otherwise the counters exist iff all four columns parse, and they are the parsed values in order |
| `ScrubStatus.DecodeScrub` | main.go:539-654 | a decoded row gives a `btrfs_scrub` point tagged exactly with mount, device (column 0) and device id (column 1), at the call's timestamp |
| `ScrubStatus.DecodeScrubSucceeds` | main.go:543-632 | a point exists iff the start time, duration, total, rate and counters all convert |
| `ScrubStatus.DecodeScrubFields` | main.go:634-654 | tags are exactly mount, device (column 0) and device_id (column 1); status is column 3 unchanged; the other eight fields are the conversions of their columns |
| `ScrubStatus.EmptyCountersIgnored` | main.go:591-596 | with column 7 empty, columns 8 to 10 do not affect the result, and all four counters are zero |
| `ScrubStatus.ParseScrubStatus` | main.go:504-659 | returns an error only when the engine is missing; otherwise the points are exactly those of the rows that decode, in row order |
| `ScrubStatus.DecodedRowPoint` | main.go:539-654 | a point decoded from a row has the mount tag and the call's timestamp; it is that row's decoding, the start time, duration, total, rate and counters of the row all converted, and its device tag and status field are the row's |
| `ScrubStatus.ScrubStatusPoints` | main.go:505-656 | every point of one call has the mount tag and the call's single timestamp, and is the decoding of a row of the stream all of whose conversions succeeded, carrying its device and status |
| `Mounts.ElementOf` | main.go:661-670 | true iff the value occurs in the slice |
| `Mounts.Kept` | main.go:129-143 | the kept line numbers lie below the bound and ascend |
| `Mounts.KeptFirst` | main.go:129-143 | a line is kept iff it is a btrfs line whose device no earlier btrfs line has |
| `Mounts.DevicesSeen` | main.go:134-138 | after n lines, a device has been recorded iff one of those lines is a btrfs line of that device |
| `Mounts.GetBtrfsMounts` | main.go:106-146 | the result is the mount points of the kept lines, in mount-table order |
| `Mounts.KeptDevices` | main.go:129-145 | devices and mounts have equal length; no device appears twice; every btrfs line's device appears; each mount comes from the first btrfs line of its device |

## Left out

- Process setup in `main` (main.go:21-104) is not modelled: logging, flag parsing, running the `btrfs` commands and the exit codes. These are process plumbing and calls to outside tools.
- Reading `/proc/self/mounts` (main.go:110-129) is not modelled; `GetBtrfsMounts` takes the mount table as lines already split into fields. The open-failure error return therefore does not appear.
- The TextFSM engine (`ast.CreateAST`, `process.NewProcess`, `Do`, the `reader` feeders) and the goroutines and channels are not modelled. They are a foreign library plus concurrency. The rows are a finite sequence, and engine set-up failure is the `None` stream.
- `time.ParseInLocation` and `Unix()` depend on the time zone; `bytefmt.ToBytes` and `strconv.ParseFloat` are foreign library code. All three are uninterpreted partial functions in `Points.Codecs`. Float fields hold whatever real number the float parser returns; float32 rounding is not modelled, and NaN and the infinities, which `ParseFloat` accepts, have no `real` counterpart.
- Line-protocol output (`MarshalString`, `fmt.Println`) and the log messages are not modelled; the emitted points are the output.
- ScrubStatus.DurationNanos: accepts two shapes of the reshaped duration: three numerals, and two numerals with an empty third part (which Go reads as hours plus milliseconds). Any other shape counts as a failure. Go's `time.ParseDuration` also accepts a few other forms: fractions, a sign on the first component, and components carrying their own unit letters.
- ScrubStatus.ParseHMS: models `int(d.Seconds())` as the exact nanosecond count divided by 10^9; the float64 arithmetic of `Seconds()` is not modelled.
- DeviceStats.RowsReadable: requires all 6 template columns in every row, although the source drops a row at the first failing counter before it reads the later columns. The template engine always emits full-width rows.
- ScrubStatus.RowReadable: requires all 11 template columns, although with an empty column 7 the source reads no column past 7. The template engine always emits full-width rows.
- FilesystemUsage.DecodeUsage: requires all 18 template columns in every row, although an Overall row reads only columns 0 to 10. The template engine always emits full-width rows.
- Strconv.Atoi: models Go's `int` as 64 bits wide; on a 32-bit platform the range would be narrower.
