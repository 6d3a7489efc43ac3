# stringz in Dafny

A model of the Go package `stringz` (file `stringz.go`): four helpers over
strings and slices of strings.

- `Contains(ys, x)` scans a slice for a value and stops at the first match.
- `Dedup(xs)` puts every value of a slice into a map used as a set. It then
  copies the map's keys into a new slice, in whatever order the Go runtime
  iterates the map.
- `Default(val, fallback, zeroValues...)` returns `fallback` when `val` equals
  one of the zero values. Otherwise it returns `val`.
- `TrimSurrounding(s, surrounding)` applies `strings.TrimPrefix` and then
  `strings.TrimSuffix` with the same `surrounding`.

Everything is in one module, `Stringz` (`stringz.dfy`). A Go `string` is a
Dafny `string` and a Go `[]string` is a `seq<string>`. A variadic parameter
is a `seq<string>`.

The three looping helpers (`Contains`, `Dedup`, `Default`) are methods with
the same loops and early returns as the Go code. Each is proved against a
reference specification: `x in ys`, the predicate `IsDedupOf` (no repeats,
same set of values), and membership of `val` in `zeroValues`.
`Dedup`'s second loop draws the next key with `:|`, because Go leaves the
order of map iteration unspecified. Its contract therefore holds for every
order and fixes none. The lemmas about `IsDedupOf` show that any two
possible results are permutations of each other and that deduplicating again
changes nothing but possibly the order.

`TrimSurrounding` is a pure function. `strings.HasPrefix`, `HasSuffix`,
`TrimPrefix` and `TrimSuffix` are written out as sequence slicing with Go's
meaning: a prefix or suffix is removed once, and only if present. The
predicates `HasPrefix` and `HasSuffix` (Go's `strings.HasPrefix` and
`strings.HasSuffix`: `prefix` is the first `|prefix|` characters of `s`,
`suffix` the last `|suffix|`) are vocabulary for these contracts and have no
contract of their own.

## Model

| member | source | states |
|---|---|---|
| `Stringz.Contains` | stringz.go:23-30 | the result is true exactly when some element of `ys` equals `x`; so an empty slice contains nothing |
| `Stringz.Dedup` | stringz.go:33-45 | the result has no repeated value and holds exactly the values of `xs`; its length is the number of distinct values, at most `\|xs\|`; an empty input gives an empty result; no output order is fixed |
| `Stringz.CardElements` | stringz.go:39-42 | a slice has at most as many distinct values as elements, with equality exactly when no value repeats (bounds the size of `Dedup`'s result) |
| `Stringz.DistinctMultiplicity` | stringz.go:40-41 | in a slice without repeats each value occurs once or not at all, as in the slice built from the map's keys |
| `Stringz.DedupUpToOrder` | stringz.go:33-45 | any two results `Dedup` may return for the same input are permutations of each other |
| `Stringz.DedupIdempotent` | stringz.go:33-45 | deduplicating a result of `Dedup` again gives the same values, each once, and a permutation of that result |
| `Stringz.DedupExamples` | stringz_test.go:47-49 | an empty slice deduplicates to an empty slice; `["x"]` and `["x", "x"]` both deduplicate to `["x"]` |
| `Stringz.Default` | stringz.go:49-57 | the result is `fallback` when `val` is one of `zeroValues` and `val` otherwise; with no zero values it is always `val` |
| `Stringz.TrimPrefix` | stringz.go:62 | `strings.TrimPrefix`: when `s` starts with `prefix` the result is what follows that one copy; otherwise `s` unchanged |
| `Stringz.TrimSuffix` | stringz.go:63 | `strings.TrimSuffix`: when `s` ends with `suffix` the result is what precedes that one copy; otherwise `s` unchanged |
| `Stringz.TrimSurrounding` | stringz.go:61-64 | in each of the four cases (leading copy present or not, trailing copy of the remainder present or not) `s` is the result with exactly the copies that were present put back; the result is a contiguous slice of `s` |
| `Stringz.TrimSurroundingEmpty` | stringz_test.go:113-114 | an empty `surrounding` leaves every string unchanged |
| `Stringz.TrimSurroundingInverse` | stringz.go:61-64 | trimming `surrounding` from `surrounding + t + surrounding` gives back `t` |
| `Stringz.TrimSurroundingQuoted` | examples_test.go:13-17 | `"quoted text"` with its double quotes trimmed is `quoted text` |
| `Stringz.TrimSurroundingOnce` | stringz.go:62-63 | stripping is not repeated: `""x""` loses only its outer quotes, and a lone `"` used up as the prefix is not taken again as the suffix |

## Left out

- Go's `nil` slice is not distinguished from an empty one. `Dedup` always returns a new, non-nil slice, which a `seq` represents the same way.
- The capacity hint `make([]string, 0, len(xsSet))` in `Dedup` is not modelled; it does not change the result.
- The Go map in `Dedup` is modelled as a `set<string>`; its hashing and internal layout are not modelled.
- Go strings are byte strings and may hold any bytes; the model uses sequences of characters and so covers only Go strings that are valid UTF-8. For those, Go's byte-wise equality, prefix and suffix tests agree with the character-wise ones here, because UTF-8 is a prefix code. Strings that are not valid UTF-8 are not represented, and neither is trimming inside a multi-byte character (Go trims `"\xc3"` off `"\xc3\xa9"` and leaves `"\xa9"`).
- `Equal`, `DefaultEmpty`, `SliceMap`, `Unpack` and `TrimPrefixIndex` are used by the tests but defined outside `stringz.go`; they are not part of this model.
