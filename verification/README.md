# NetSnapKit scan helpers in Dafny

NetSnapKit's `scan.py` takes a single URL, a root domain or a file of URLs. It
captures a full-page screenshot of every target in a headless browser, puts a
label banner on each, and writes them all to one PDF in `output/screenshots`.
This project models the sequential, checkable part of that script:

- `sanitize_filename` turns a URL, domain or file name into an output name.
- `get_unique_filename` picks `base.pdf`, `base_1.pdf`, `base_2.pdf`, ... and
  never overwrites a file.
- `capture_single_url` puts `http://` in front of a target that does not start with `http`.
- `discover_subdomains` parses the subdomain finder's output into a list of hosts.
- `main` reads the URL file, selects the mode and picks the output name.

Two modules:

- `python_str.dfy`, module `PyStr`: the Python string semantics these
  helpers rely on, on `string` (`seq<char>`). It covers `str.isspace`, `strip`,
  `startswith`, left-to-right non-overlapping `replace`, `split` on `"\n"`,
  and `str(n)` for the counter. `join` and `int` are there too, as the
  inverses that `split` and `str(n)` are proved against.
- `scan.dfy`, module `Scan`: the helpers of `scan.py`. `get_unique_filename`
  is a method with its `while` loop. The directory is the finite set of
  names that already exist in it, so `os.path.exists(join(d, f))` is
  `f in existing`. The loop ends because the names it tries are pairwise
  distinct: the decimal suffix reads back to its counter. So after `n` tries
  the set holds `n` distinct names, and `n` can never exceed the size of the
  set (pigeonhole).

I/O enters only as parameters. The subdomain finder's standard output is an
`Option<string>`, where `None` stands for the tool failing to launch. The URL
file is the list of its lines, as `readlines` returns them. The screenshots
directory is the set of names that already exist in it.

## Model

| member | source | states |
|---|---|---|
| `PyStr.TrimEnd` | scan.py:21 | the trailing-whitespace half of `strip()`: the result is a prefix of the input that does not end in whitespace, and everything it drops is whitespace |
| `PyStr.Strip` | scan.py:21 | the result has no leading or trailing whitespace (in Python's `isspace` sense) |
| `PyStr.StripPads` | scan.py:21 | `strip()` removes only whitespace and only at the ends: the input is its result padded with whitespace on both sides |
| `PyStr.StripCharacterized` | scan.py:21 | those two properties determine `strip()` uniquely: any stripped string that the input pads with whitespace is `Strip` of it |
| `PyStr.StripStripped` | scan.py:21 | stripping a string with no surrounding whitespace leaves it unchanged |
| `PyStr.StripTerminated` | scan.py:131 | a stripped line followed by its `"\n"` terminator strips back to the line; a lone `"\n"` strips to the empty string |
| `PyStr.Replace` | scan.py:21 | `str.replace` (left to right, non-overlapping); every character of the result comes from the input or from the replacement |
| `PyStr.ReplaceAbsent` | scan.py:21 | if the pattern holds a character the input lacks, replacing leaves the input unchanged |
| `PyStr.ReplaceNoOccurrence` | scan.py:21 | if the pattern occurs at no index of the input, replacing leaves the input unchanged |
| `PyStr.ReplaceAtStart` | scan.py:21 | an occurrence at the start is replaced, and replacing continues right after it |
| `PyStr.ReplaceSkip` | scan.py:21 | where the pattern does not occur at the start, the first character is kept and the scan moves on |
| `PyStr.ReplaceAtZero` | scan.py:21 | where the pattern occurs at the start, it is replaced and the scan resumes after it |
| `PyStr.ReplaceKeepsPrefix` | scan.py:21 | a prefix in which no occurrence starts is kept unchanged, and the rest is scanned on its own |
| `PyStr.ReplaceAtFirst` | scan.py:21 | at the first occurrence, everything before it is kept, the occurrence is replaced and the scan resumes right after it; with `ReplaceNoOccurrence` this fixes `replace` on every input |
| `PyStr.NoOccurrenceBefore` | scan.py:21 | in `a + pat + b`, no occurrence of a pattern whose first character does not recur in it starts inside an occurrence-free `a` |
| `PyStr.ReplaceInner` | scan.py:21 | a single occurrence between two occurrence-free parts is replaced and both parts are kept |
| `PyStr.ReplaceSelf` | scan.py:21 | replacing a pattern by itself is the identity |
| `PyStr.ReplaceChar` | scan.py:21 | replacing one character by another keeps the length and substitutes position by position |
| `PyStr.Split` | scan.py:104 | `split("\n")` yields at least one piece, and no piece contains the separator |
| `PyStr.JoinSplit` | scan.py:104 | joining the pieces of a split with the separator gives back the original string |
| `PyStr.SplitJoin` | scan.py:104 | splitting the join of separator-free pieces gives back the pieces |
| `PyStr.Decimal` | scan.py:28 | the counter in `f"{counter}"` is printed as a non-empty string of decimal digits, with no leading zero unless the counter is 0 |
| `PyStr.ParseDecimalOfDecimal` | scan.py:28 | reading the decimal form of `n` gives back `n` |
| `PyStr.DecimalInjective` | scan.py:28 | distinct counters print differently |
| `Scan.SanitizeFilename` | scan.py:20-21 | the sanitised name has no `/` (a single path component) and no surrounding whitespace, and holds only characters of the input and `_` |
| `Scan.SanitizeIdempotent` | scan.py:20-21 | sanitising twice gives the same name as sanitising once |
| `Scan.Basename` | scan.py:132 | `os.path.basename` returns the longest `/`-free suffix of the path: it has no `/`, it ends the path, and either it is the whole path or a `/` comes just before it |
| `Scan.SanitizedBasename` | scan.py:132 | for a base name, sanitising does nothing but strip |
| `Scan.SanitizeSlashFree` | scan.py:20-21 | a name without `/` is only stripped by sanitising |
| `Scan.Flatten` | scan.py:21 | reference for `replace("/", "_")`: same length, every `/` becomes `_`, every other character stays in place |
| `Scan.SanitizeNoScheme` | scan.py:20-21 | a name in which neither `http://` nor `https://` occurs is sanitised by turning each `/` into `_` and stripping |
| `Scan.SanitizeUrl` | scan.py:20-21 | the scheme is removed and the path flattened: `http://h` and `https://h` both sanitise to `h` with each `/` turned into `_`, stripped (so `https://example.com/login` gives `example.com_login`), for every `h` that mentions no scheme |
| `Scan.SanitizeHttp` | scan.py:21 | for every name, a leading `http://` is removed and the rest is sanitised as if it were absent |
| `Scan.SanitizeHttps` | scan.py:21 | when `http://` does not occur after it, a leading `https://` is untouched by the `http://` replacement and then removed by the `https://` one |
| `Scan.HttpNotInHttps` | scan.py:21 | `http://` occurs in `https://h` only if it occurs in `h` |
| `Scan.SchemeFreeParts` | scan.py:21 | the parts of a scheme-free name are scheme-free |
| `Scan.SanitizeInnerHttp` | scan.py:20-21 | an `http://` anywhere in the name is removed, not only at the start: `a + "http://" + b` sanitises to `a + b` with each `/` turned into `_`, stripped, whenever `a + b` mentions no scheme |
| `Scan.SanitizeInnerHttps` | scan.py:20-21 | an `https://` anywhere in the name is removed: `a + "https://" + b` sanitises to `a + b` with each `/` turned into `_`, stripped, whenever `a` and `b` mention no scheme (so `https://site.com/login?next=https://site.com/home` gives `site.com_login?next=site.com_home`, with `SanitizeHttps`) |
| `Scan.HttpNotInInnerHttps` | scan.py:21 | `http://` does not occur in `a + "https://" + b` when it occurs in neither part |
| `Scan.HttpsRemovedInner` | scan.py:21 | the `https://` pass turns `a + "https://" + b` into `a + b` |
| `Scan.Candidate` | scan.py:25-28 | a tried name built from a `/`-free base and extension has no `/` |
| `Scan.CandidateInjective` | scan.py:25-28 | `base+ext`, `base_1+ext`, `base_2+ext`, ... are pairwise distinct |
| `Scan.CandidateSetFacts` | scan.py:26-29 | the first `n` names tried are `n` distinct names, and no later name repeats one of them |
| `Scan.CandidateSetWithin` | scan.py:27 | if each of the first `n` names exists, the set of them lies within the directory |
| `Scan.SomeCandidateFree` | scan.py:27-29 | pigeonhole: for every finite directory one of the first `|existing| + 1` names is free, so the loop terminates |
| `Scan.FirstFreeUnique` | scan.py:24-30 | only one index is the first free one, so the contract of `GetUniqueFilename` determines its result |
| `Scan.GetUniqueFilename` | scan.py:24-30 | the returned name does not exist, so nothing is overwritten; it is `base+ext` when that is free; otherwise it is `base_k+ext` for the least `k` whose name is free, every earlier name exists, and `k` is at most `|existing|` |
| `Scan.ReportNumbering` | scan.py:24-30 | with `report.pdf` taken the next name is `report_1.pdf`; with `report_1.pdf` taken too it is `report_2.pdf` |
| `Scan.ChooseDocumentName` | scan.py:87-97 | a PDF is written only when at least one page was captured. Its name does not exist yet and stays inside the screenshots directory. It is `name.pdf` when that is free, and otherwise the first free name of `name.pdf`, `name_1.pdf`, `name_2.pdf`, ... |
| `Scan.NormalizeSchemeAsWritten` | scan.py:65-66 | the navigated URL starts with `http` and ends with the target; it equals the target exactly when the target starts with `http`, and otherwise it is `http://` followed by the target |
| `Scan.HttpNamedHostLacksScheme` | scan.py:65-66 | the target `httpbin.org` is navigated to without any scheme |
| `Scan.NormalizeScheme` | scan.py:65-66 | corrected normalisation: the result always names the `http://` or `https://` scheme, and equals the target exactly when the target already names one |
| `Scan.NormalizeSchemeIdempotent` | scan.py:65-66 | normalising twice is normalising once |
| `Scan.NormalizeSchemeAsWrittenIdempotent` | scan.py:65-66 | the as-written normalisation is idempotent too |
| `Scan.NormalizeSchemeDiffers` | scan.py:65-66 | the corrected and the as-written normalisation differ exactly on targets that start with `http` without naming a scheme |
| `Scan.NonEmpty` | scan.py:105 | `[sub for sub in subs if sub]` keeps no empty string, keeps only strings of its input, and is a subsequence of its input (order preserved) |
| `Scan.NonEmptyCounts` | scan.py:105 | every non-empty string of the input is kept exactly as often as it occurs (multiset equality with the empty strings removed) |
| `Scan.NonEmptyKeepsAll` | scan.py:105 | a list with no empty strings passes through unchanged |
| `Scan.ParseSubdomainOutput` | scan.py:104-105 | the hosts have no empty entry and no line feed, and they come in the order of the tool's output lines |
| `Scan.DiscoverSubdomains` | scan.py:100-108 | a tool that cannot be run yields the empty list; otherwise its output is parsed |
| `Scan.JoinEnds` | scan.py:104 | the lines joined with `"\n"` end with the last character of the last line |
| `Scan.JoinedHostsStripped` | scan.py:104 | host names joined with line feeds have no surrounding whitespace to strip |
| `Scan.SubdomainOutputRoundTrip` | scan.py:103-105 | whitespace-free, non-empty hosts joined by line feeds and followed by a final line feed parse back to exactly those hosts, in order; for no hosts that text is a lone line feed, which parses to no hosts |
| `Scan.Printout` | scan.py:103 | the tool's output for at least one host is the hosts joined by line feeds plus a final line feed |
| `Scan.SubdomainPrintoutRoundTrip` | scan.py:103-105 | if the tool prints whitespace-free, non-empty hosts one per line, parsing gives back exactly those hosts, in order; an empty output gives no hosts |
| `Scan.ParseSubdomainOutputCounts` | scan.py:104-105 | every non-empty line of the stripped output is a host, as often as it occurs (multiset equality with the empty lines removed) |
| `Scan.StripAll` | scan.py:131 | the stripped lines, one per input line, in order |
| `Scan.ParseUrlFile` | scan.py:131 | every URL read from the file is non-empty and stripped |
| `Scan.ParseUrlFileCons` | scan.py:131 | the URL file is parsed line by line: a non-blank first line contributes its stripped form, a blank one nothing, and the rest follows |
| `Scan.ParseUrlFileKeepsNonBlank` | scan.py:131 | the URLs are exactly the non-blank stripped lines: a subsequence of the stripped lines (file order kept), each non-blank one as often as it occurs |
| `Scan.UrlFileRoundTrip` | scan.py:130-131 | reading a file written one stripped, non-empty URL per line gives back the URLs in order |
| `Scan.SelectMode` | scan.py:121-136 | `--url` wins over `--subdomains`, which wins over `--urlfile`; an empty argument counts as absent, and usage is printed exactly when none is given |
| `Scan.SweepName` | scan.py:127 | the sweep-mode output name has no `/` and ends with `_subdomains` |
| `Scan.OutputBaseName` | scan.py:119-132 | the output name never contains `/`; in sweep mode it ends with `_subdomains`; in file mode it is the stripped base name of the file |
| `Scan.PlanRun` | scan.py:111-138 | with no mode given nothing runs. Otherwise: every target URL is non-empty, and the output name is a single path component. The single-URL mode has exactly that URL, the sweep mode has the parsed tool output, the file mode has the parsed file lines |

## Findings

| source | as written | input that shows it | evidently intended | confidence | as-written member | corrected member |
|---|---|---|---|---|---|---|
| scan.py:65-66 | `url.startswith("http")` is taken to mean "already has a scheme" | target `httpbin.org` (or any host beginning with `http`) is navigated to as `httpbin.org`, with no scheme | prepend `http://` unless the URL begins with `http://` or `https://` | high; not executed | `Scan.HttpNamedHostLacksScheme` (on `Scan.NormalizeSchemeAsWritten`) | `Scan.NormalizeScheme` |

## Left out

- Browser work in `capture_single_url` and `capture_urls` (scan.py:60-85): launching Chromium, opening one context per URL, navigating with the 60-second timeout, taking full-page screenshots. These are calls into an external browser.
- The `asyncio` semaphore of 12 and `gather` (scan.py:61, 79, 83-84). Their point is concurrency, and the order of the captured images depends on completion timing.
- `add_label_to_image` (scan.py:33-57): PIL image compositing and font loading.
- Saving the PDF through `Image.save` (scan.py:87-97). Only the decision whether to write, and under which name, is modelled (`Scan.ChooseDocumentName`). The number of captured pages is a parameter.
- Running `assetfinder` with `subprocess.run` (scan.py:103). Its standard output is a parameter. A failure to launch is `None`, which yields the empty list.
- `argparse`, `os.makedirs`, opening and reading the URL file, and the coloured status lines (scan.py:12-16, 101, 107, 112-117, 130, 135). The arguments are a datatype of optional strings, and the file is the list of its lines.
- `Scan.Basename`: follows POSIX `os.path.basename` (split at the last `/`). The Windows variant also splits at `\` and drive letters, and is not modelled.
- `Scan.SanitizeFilename`: only `/` is replaced. Other characters that a file system may refuse pass through unchanged, exactly as in the source.
- `Scan.ParseSubdomainOutput`: only the whole output is stripped, not each line, as in the source. So a line holding only blanks is kept as a host. The parameter is the output as `subprocess.run(..., text=True)` returns it, with line ends already translated to `"\n"`.
- `Scan.OutputBaseName`: the default `screenshots` is kept for the usage case, but `main` returns before it is used. A target that sanitises to the empty string gives the document name `.pdf`, as in the source.
- `PyStr.Replace`: requires a non-empty pattern. Python's behaviour for an empty pattern (inserting the replacement between characters) is not modelled, because every call in the source uses a non-empty literal.
