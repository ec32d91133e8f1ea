/** The sequential helpers of the screenshot tool (`scan.py`): naming the
    output document, choosing a file name that overwrites nothing, giving a
    target URL a scheme, and turning the subdomain finder's output or a URL
    file into the list of targets. */
module Scan {
  import opened PyStr

  datatype Option<T> = None | Some(value: T)

  // ---------------------------------------------------------------------
  // Output file names
  // ---------------------------------------------------------------------

  /** `sanitize_filename`: drops every `http://` and `https://`, turns every
      `/` into `_` and strips the surrounding whitespace. The result is a
      single path component with no surrounding whitespace, built only from
      characters of `name` and `_`. */
  function SanitizeFilename(name: string): (r: string)
    ensures '/' !in r
    ensures IsStripped(r)
    ensures forall c :: c in r ==> c in name || c == '_'
  {
    var noHttp := Replace(name, "http://", "");
    var noScheme := Replace(noHttp, "https://", "");
    var flat := Replace(noScheme, "/", "_");
    ReplaceChar(noScheme, '/', '_');
    assert forall k :: 0 <= k < |flat| ==> flat[k] != '/';
    StripPads(flat);
    Strip(flat)
  }

  /** Sanitising a name twice gives the same name as sanitising it once. */
  lemma SanitizeIdempotent(name: string)
    ensures SanitizeFilename(SanitizeFilename(name)) == SanitizeFilename(name)
  {
    var t := SanitizeFilename(name);
    ReplaceAbsent(t, "http://", "", '/');
    ReplaceAbsent(t, "https://", "", '/');
    ReplaceAbsent(t, "/", "_", '/');
    StripStripped(t);
  }

  /** `os.path.basename` on a POSIX path: the part after the last `/`. */
  function Basename(path: string): (r: string)
    ensures '/' !in r
    ensures |r| <= |path| && r == path[|path| - |r|..]
    ensures |r| < |path| ==> path[|path| - |r| - 1] == '/'
    decreases |path|
  {
    if path == [] || path[|path| - 1] == '/' then []
    else
      var init := path[..|path| - 1];
      var r := Basename(init);
      assert path[|path| - |r| - 1..] == init[|init| - |r|..] + [path[|path| - 1]];
      assert |r| + 1 < |path| ==> path[|path| - |r| - 2] == init[|init| - |r| - 1];
      r + [path[|path| - 1]]
  }

  /** In batch-file mode the sanitising only strips: a base name holds no `/`,
      so it cannot hold a scheme either. */
  lemma SanitizedBasename(path: string)
    ensures SanitizeFilename(Basename(path)) == Strip(Basename(path))
  {
    SanitizeSlashFree(Basename(path));
  }

  /** A name without `/` holds neither scheme prefix nor a path separator, so
      sanitising it only strips it. */
  lemma SanitizeSlashFree(h: string)
    requires '/' !in h
    ensures SanitizeFilename(h) == Strip(h)
  {
    ReplaceAbsent(h, "http://", "", '/');
    ReplaceAbsent(h, "https://", "", '/');
    ReplaceAbsent(h, "/", "_", '/');
  }

  /** Every `/` of `s` turned into `_`, position by position: what
      `replace("/", "_")` does to a path. */
  function Flatten(s: string): (r: string)
    ensures |r| == |s|
    ensures forall k :: 0 <= k < |s| ==> r[k] == (if s[k] == '/' then '_' else s[k])
  {
    if s == [] then [] else [if s[0] == '/' then '_' else s[0]] + Flatten(s[1..])
  }

  /** Neither `http://` nor `https://` occurs anywhere in `s`. */
  ghost predicate SchemeFree(s: string) {
    forall k: nat :: !OccursAt(s, "http://", k) && !OccursAt(s, "https://", k)
  }

  /** A name that mentions no scheme is sanitised by turning each `/` into
      `_` and stripping the result. */
  lemma SanitizeNoScheme(name: string)
    requires SchemeFree(name)
    ensures SanitizeFilename(name) == Strip(Flatten(name))
  {
    ReplaceNoOccurrence(name, "http://", "");
    ReplaceNoOccurrence(name, "https://", "");
    ReplaceChar(name, '/', '_');
    assert Replace(name, "/", "_") == Flatten(name);
  }

  /** The scheme of a URL is dropped from its output name and its path is
      flattened: `http://h` and `https://h` both sanitise to `h` with each
      `/` turned into `_`, stripped (`https://example.com/login` gives
      `example.com_login`). */
  lemma SanitizeUrl(h: string)
    requires SchemeFree(h)
    ensures SanitizeFilename("http://" + h) == Strip(Flatten(h))
    ensures SanitizeFilename("https://" + h) == Strip(Flatten(h))
  {
    SanitizeNoScheme(h);
    SanitizeHttp(h);
    SanitizeHttps(h);
  }

  /** A leading `http://` is removed before anything else happens. */
  lemma SanitizeHttp(h: string)
    ensures SanitizeFilename("http://" + h) == SanitizeFilename(h)
  {
    ReplaceAtStart("http://", h, "");
    assert Replace("http://" + h, "http://", "") == Replace(h, "http://", "") by {
      assert "" + Replace(h, "http://", "") == Replace(h, "http://", "");
    }
  }

  /** A leading `https://` survives the `http://` pass and is removed by the
      `https://` pass. */
  lemma SanitizeHttps(h: string)
    requires forall k: nat :: !OccursAt(h, "http://", k)
    ensures SanitizeFilename("https://" + h) == SanitizeFilename(h)
  {
    var u := "https://" + h;
    HttpNotInHttps(h);
    ReplaceNoOccurrence(u, "http://", "");
    ReplaceNoOccurrence(h, "http://", "");
    ReplaceAtStart("https://", h, "");
    assert Replace(u, "https://", "") == Replace(h, "https://", "") by {
      assert "" + Replace(h, "https://", "") == Replace(h, "https://", "");
    }
  }

  /** `http://` does not occur in `https://h` unless it occurs in `h`: at
      index 0 the `s` differs from `:`, at 1 to 7 the character differs from
      `h`, and from 8 on an occurrence would lie inside `h`. */
  lemma HttpNotInHttps(h: string)
    requires forall k: nat :: !OccursAt(h, "http://", k)
    ensures forall k: nat :: !OccursAt("https://" + h, "http://", k)
  {
    var u := "https://" + h;
    forall k: nat
      ensures !OccursAt(u, "http://", k)
    {
      if k + 7 <= |u| {
        if k >= 8 {
          assert !OccursAt(h, "http://", k - 8);
          assert u[k..k + 7] == h[k - 8..k - 1];
        } else if k == 0 {
          assert u[k..k + 7][4] == 's';
        } else {
          assert u[k..k + 7][0] == u[k] != 'h';
        }
      }
    }
  }

  /** A scheme-free name has scheme-free parts. */
  lemma SchemeFreeParts(a: string, b: string)
    requires SchemeFree(a + b)
    ensures SchemeFree(a) && SchemeFree(b)
  {
    var u := a + b;
    forall k: nat
      ensures !OccursAt(a, "http://", k) && !OccursAt(a, "https://", k)
    {
      assert !OccursAt(u, "http://", k) && !OccursAt(u, "https://", k);
      if k + 7 <= |a| {
        assert u[k..k + 7] == a[k..k + 7];
      }
      if k + 8 <= |a| {
        assert u[k..k + 8] == a[k..k + 8];
      }
    }
    assert u[|a|..] == b;
    forall k: nat
      ensures !OccursAt(b, "http://", k) && !OccursAt(b, "https://", k)
    {
      assert !OccursAt(u, "http://", |a| + k) && !OccursAt(u, "https://", |a| + k);
      if k + 7 <= |b| {
        assert u[|a| + k..|a| + k + 7] == u[|a|..][k..k + 7];
      }
      if k + 8 <= |b| {
        assert u[|a| + k..|a| + k + 8] == u[|a|..][k..k + 8];
      }
    }
  }

  /** `http://` is removed wherever it occurs, not only at the start: with one
      occurrence inside the name, the rest is sanitised as if it were absent
      (`a` and `b` must not join into a new scheme, since the `https://` pass
      comes after the `http://` one). */
  lemma SanitizeInnerHttp(a: string, b: string)
    requires SchemeFree(a + b)
    ensures SanitizeFilename(a + "http://" + b) == Strip(Flatten(a + b))
  {
    SchemeFreeParts(a, b);
    ReplaceInner(a, "http://", b, "");
    assert a + "" + b == a + b;
    ReplaceNoOccurrence(a + b, "http://", "");
    SanitizeNoScheme(a + b);
  }

  /** `https://` is removed wherever it occurs: with one occurrence inside an
      otherwise scheme-free name, the name is sanitised as if it were
      absent. */
  lemma SanitizeInnerHttps(a: string, b: string)
    requires SchemeFree(a) && SchemeFree(b)
    ensures SanitizeFilename(a + "https://" + b) == Strip(Flatten(a + b))
  {
    var u := a + "https://" + b;
    HttpNotInInnerHttps(a, b);
    ReplaceNoOccurrence(u, "http://", "");
    HttpsRemovedInner(a, b);
    ReplaceChar(a + b, '/', '_');
    assert Replace(a + b, "/", "_") == Flatten(a + b);
  }

  /** `http://` does not occur in `a + "https://" + b` when it occurs in
      neither part. */
  lemma HttpNotInInnerHttps(a: string, b: string)
    requires forall k: nat :: !OccursAt(a, "http://", k)
    requires forall k: nat :: !OccursAt(b, "http://", k)
    ensures forall k: nat :: !OccursAt(a + "https://" + b, "http://", k)
  {
    var u := a + "https://" + b;
    forall k: nat
      ensures !OccursAt(u, "http://", k)
    {
      if k + 7 <= |u| {
        if k + 7 <= |a| {
          assert !OccursAt(a, "http://", k);
          assert u[k..k + 7] == a[k..k + 7];
        } else if k < |a| {
          assert u[k..k + 7][|a| - k] == u[|a|] == 'h';
        } else if k == |a| {
          assert u[k..k + 7][4] == 's';
        } else if k < |a| + 8 {
          assert u[k..k + 7][0] == u[k] != 'h';
        } else {
          assert !OccursAt(b, "http://", k - |a| - 8);
          assert u[k..k + 7] == b[k - |a| - 8..k - |a| - 1];
        }
      }
    }
  }

  /** The `https://` pass turns `a + "https://" + b` into `a + b`. */
  lemma HttpsRemovedInner(a: string, b: string)
    requires SchemeFree(a) && SchemeFree(b)
    ensures Replace(a + "https://" + b, "https://", "") == a + b
  {
    ReplaceInner(a, "https://", b, "");
    assert a + "" + b == a + b;
  }

  /** The `k`-th name `get_unique_filename` tries: `base + ext` first, then
      `base_1 + ext`, `base_2 + ext`, ... */
  function Candidate(base: string, ext: string, k: nat): (f: string)
    ensures '/' !in base && '/' !in ext ==> '/' !in f
  {
    if k == 0 then base + ext else base + "_" + Decimal(k) + ext
  }

  /** No name is tried twice. */
  lemma CandidateInjective(base: string, ext: string, j: nat, k: nat)
    requires Candidate(base, ext, j) == Candidate(base, ext, k)
    ensures j == k
  {
    if j != 0 && k != 0 {
      var f := Candidate(base, ext, j);
      assert |Decimal(j)| == |Decimal(k)|;
      assert f[|base| + 1..|f| - |ext|] == Decimal(j);
      assert Candidate(base, ext, k)[|base| + 1..|f| - |ext|] == Decimal(k);
      DecimalInjective(j, k);
    }
  }

  /** The first `n` names tried. */
  ghost function CandidateSet(base: string, ext: string, n: nat): set<string> {
    if n == 0 then {} else CandidateSet(base, ext, n - 1) + {Candidate(base, ext, n - 1)}
  }

  /** The first `n` names tried are `n` different names, and none of them is
      tried again later. */
  lemma {:induction false} CandidateSetFacts(base: string, ext: string, n: nat)
    ensures |CandidateSet(base, ext, n)| == n
    ensures forall m :: n <= m ==> Candidate(base, ext, m) !in CandidateSet(base, ext, n)
  {
    if n > 0 {
      CandidateSetFacts(base, ext, n - 1);
      forall m | n <= m
        ensures Candidate(base, ext, m) !in CandidateSet(base, ext, n)
      {
        if Candidate(base, ext, m) == Candidate(base, ext, n - 1) {
          CandidateInjective(base, ext, m, n - 1);
        }
      }
    }
  }

  /** A set holding each of the first `n` names holds all of them. */
  lemma {:induction false} CandidateSetWithin(base: string, ext: string, n: nat, existing: set<string>)
    requires forall j :: 0 <= j < n ==> Candidate(base, ext, j) in existing
    ensures CandidateSet(base, ext, n) <= existing
  {
    if n > 0 {
      CandidateSetWithin(base, ext, n - 1, existing);
    }
  }

  /** Pigeonhole: among the first `|existing| + 1` names at least one is free,
      so the search of `get_unique_filename` ends for every directory. */
  lemma SomeCandidateFree(base: string, ext: string, existing: set<string>)
    ensures exists k :: 0 <= k <= |existing| && Candidate(base, ext, k) !in existing
  {
    var n := |existing| + 1;
    if forall j :: 0 <= j < n ==> Candidate(base, ext, j) in existing {
      CandidateSetWithin(base, ext, n, existing);
      CandidateSetFacts(base, ext, n);
      SubsetCardinality(CandidateSet(base, ext, n), existing);
      assert false;
    }
  }

  lemma {:induction false} SubsetCardinality(a: set<string>, b: set<string>)
    requires a <= b
    ensures |a| <= |b|
    decreases |a|
  {
    if a != {} {
      var x :| x in a;
      SubsetCardinality(a - {x}, b - {x});
    }
  }

  /** Name `k` is free and every name tried before it is taken. */
  predicate IsFirstFree(base: string, ext: string, existing: set<string>, k: nat) {
    Candidate(base, ext, k) !in existing
    && forall j :: 0 <= j < k ==> Candidate(base, ext, j) in existing
  }

  /** The first free name is unique, so the ensures of `GetUniqueFilename`
      determine its result. */
  lemma FirstFreeUnique(base: string, ext: string, existing: set<string>, j: nat, k: nat)
    requires IsFirstFree(base, ext, existing, j) && IsFirstFree(base, ext, existing, k)
    ensures j == k
  {
  }

  /** The extension of the output document. */
  const PdfExt := ".pdf"

  /** `get_unique_filename`: the directory is the set of names that already
      exist in it. Returns the first of `base + ext`, `base_1 + ext`,
      `base_2 + ext`, ... that is not taken, so it never names an existing
      file; the search stops within `|existing| + 1` tries. */
  method GetUniqueFilename(base: string, existing: set<string>, ext: string) returns (filename: string)
    ensures filename !in existing
    ensures base + ext !in existing ==> filename == base + ext
    ensures exists k :: 0 <= k <= |existing| && filename == Candidate(base, ext, k)
                        && IsFirstFree(base, ext, existing, k)
  {
    filename := base + ext;
    var counter := 1;
    while filename in existing
      invariant 1 <= counter && counter - 1 <= |existing|
      invariant filename == Candidate(base, ext, counter - 1)
      invariant forall j :: 0 <= j < counter - 1 ==> Candidate(base, ext, j) in existing
      invariant CandidateSet(base, ext, counter - 1) <= existing
      decreases |existing| - (counter - 1)
    {
      CandidateSetFacts(base, ext, counter);
      SubsetCardinality(CandidateSet(base, ext, counter), existing);
      filename := base + "_" + Decimal(counter) + ext;
      counter := counter + 1;
    }
    assert IsFirstFree(base, ext, existing, counter - 1);
  }

  /** With `report.pdf` taken the next document is `report_1.pdf`; with
      `report_1.pdf` taken as well it is `report_2.pdf`. */
  lemma ReportNumbering()
    ensures IsFirstFree("report", PdfExt, {"report.pdf"}, 1)
    ensures Candidate("report", PdfExt, 1) == "report_1.pdf"
    ensures IsFirstFree("report", PdfExt, {"report.pdf", "report_1.pdf"}, 2)
    ensures Candidate("report", PdfExt, 2) == "report_2.pdf"
  {
    assert Decimal(1) == "1" && Decimal(2) == "2";
    assert Candidate("report", PdfExt, 0) == "report.pdf";
    assert Candidate("report", PdfExt, 1) == "report_1.pdf";
    assert Candidate("report", PdfExt, 2) == "report_2.pdf";
  }

  /** `capture_urls` (after the captures): a document is written only when at
      least one page was captured, and then under a name that overwrites
      nothing in the screenshots directory. */
  method ChooseDocumentName(outputName: string, captured: nat, existing: set<string>)
    returns (target: Option<string>)
    ensures target.None? <==> captured == 0
    ensures target.Some? ==> target.value !in existing
    ensures target.Some? && outputName + PdfExt !in existing ==> target.value == outputName + PdfExt
    ensures target.Some? && '/' !in outputName ==> '/' !in target.value
    ensures target.Some? ==>
      exists k :: 0 <= k <= |existing| && target.value == Candidate(outputName, PdfExt, k)
        && IsFirstFree(outputName, PdfExt, existing, k)
  {
    if captured == 0 {
      target := None;
    } else {
      var name := GetUniqueFilename(outputName, existing, PdfExt);
      target := Some(name);
    }
  }

  // ---------------------------------------------------------------------
  // Target URLs
  // ---------------------------------------------------------------------

  /** `capture_single_url`, as written: a URL that does not start with `http`
      gets `http://` in front. The result starts with `http` and ends with
      the URL. */
  function NormalizeSchemeAsWritten(url: string): (r: string)
    ensures StartsWith(r, "http")
    ensures r == url <==> StartsWith(url, "http")
    ensures r == url || r == "http://" + url
  {
    if StartsWith(url, "http") then url else "http://" + url
  }

  /** A host whose name begins with `http` keeps no scheme. */
  lemma HttpNamedHostLacksScheme()
    ensures NormalizeSchemeAsWritten("httpbin.org") == "httpbin.org"
    ensures !HasScheme(NormalizeSchemeAsWritten("httpbin.org"))
  {
    assert "httpbin.org"[..7][4] != "http://"[4];
    assert "httpbin.org"[..8][4] != "https://"[4];
  }

  /** The URL names its scheme, `http://` or `https://`. */
  predicate HasScheme(url: string) {
    StartsWith(url, "http://") || StartsWith(url, "https://")
  }

  /** Scheme normalisation as intended: `http://` is put in front of every
      URL that does not already name its scheme. */
  function NormalizeScheme(url: string): (r: string)
    ensures HasScheme(r)
    ensures r == url <==> HasScheme(url)
    ensures r == url || r == "http://" + url
  {
    if HasScheme(url) then url
    else
      assert ("http://" + url)[..7] == "http://";
      "http://" + url
  }

  /** Normalising twice is normalising once. */
  lemma NormalizeSchemeIdempotent(url: string)
    ensures NormalizeScheme(NormalizeScheme(url)) == NormalizeScheme(url)
  {
  }

  /** Normalising twice is normalising once, for the code as written too. */
  lemma NormalizeSchemeAsWrittenIdempotent(url: string)
    ensures NormalizeSchemeAsWritten(NormalizeSchemeAsWritten(url))
         == NormalizeSchemeAsWritten(url)
  {
  }

  /** The two normalisations differ exactly on URLs that start with `http`
      without naming a scheme. */
  lemma NormalizeSchemeDiffers(url: string)
    ensures NormalizeScheme(url) != NormalizeSchemeAsWritten(url)
            <==> StartsWith(url, "http") && !HasScheme(url)
  {
    if StartsWith(url, "http://") {
      assert url[..4] == url[..7][..4];
    }
    if StartsWith(url, "https://") {
      assert url[..4] == url[..8][..4];
    }
  }

  // ---------------------------------------------------------------------
  // Line lists
  // ---------------------------------------------------------------------

  /** `r` is `s` with some elements left out, the rest in their order. */
  ghost predicate IsSubseq(r: seq<string>, s: seq<string>)
    decreases |s|
  {
    r == [] || (s != [] && ((r[0] == s[0] && IsSubseq(r[1..], s[1..])) || IsSubseq(r, s[1..])))
  }

  /** `[x for x in xs if x]`: no empty string is kept, and what is kept is
      in the order of `xs`. */
  function NonEmpty(xs: seq<string>): (r: seq<string>)
    ensures forall k :: 0 <= k < |r| ==> r[k] != [] && r[k] in xs
    ensures IsSubseq(r, xs)
    decreases |xs|
  {
    if xs == [] then []
    else
      var rest := NonEmpty(xs[1..]);
      if xs[0] == [] then
        rest
      else
        assert ([xs[0]] + rest)[1..] == rest;
        [xs[0]] + rest
  }

  /** Every non-empty string of `xs` is kept, as often as it occurs there. */
  lemma {:induction false} NonEmptyCounts(xs: seq<string>)
    ensures multiset(NonEmpty(xs)) == multiset(xs)[[] := 0]
    decreases |xs|
  {
    if xs != [] {
      NonEmptyCounts(xs[1..]);
      assert xs == [xs[0]] + xs[1..];
      assert multiset(xs) == multiset{xs[0]} + multiset(xs[1..]);
    }
  }

  /** A list without empty strings passes through unchanged. */
  lemma {:induction false} NonEmptyKeepsAll(xs: seq<string>)
    requires forall k :: 0 <= k < |xs| ==> xs[k] != []
    ensures NonEmpty(xs) == xs
    decreases |xs|
  {
    if xs != [] {
      NonEmptyKeepsAll(xs[1..]);
    }
  }

  /** `discover_subdomains`, after the tool has run: its standard output is
      stripped, split at line feeds, and the empty lines are dropped. The
      result holds no empty string and no line feed, and keeps the tool's
      lines in their order. */
  function ParseSubdomainOutput(stdout: string): (r: seq<string>)
    ensures forall k :: 0 <= k < |r| ==> r[k] != [] && '\n' !in r[k]
    ensures IsSubseq(r, Split(Strip(stdout), '\n'))
  {
    NonEmpty(Split(Strip(stdout), '\n'))
  }

  /** `discover_subdomains`: `None` stands for a tool that could not be run
      (the exception path), which yields no subdomains. */
  function DiscoverSubdomains(toolStdout: Option<string>): (r: seq<string>)
    ensures toolStdout.None? ==> r == []
    ensures toolStdout.Some? ==> r == ParseSubdomainOutput(toolStdout.value)
  {
    match toolStdout
    case None => []
    case Some(out) => ParseSubdomainOutput(out)
  }

  /** The string holds no whitespace at all, as a host name does not. */
  predicate NoSpace(s: string) {
    forall k :: 0 <= k < |s| ==> !IsSpace(s[k])
  }

  /** The joined string ends with the last piece. */
  lemma {:induction false} JoinEnds(parts: seq<string>, sep: char)
    requires |parts| >= 1 && parts[|parts| - 1] != []
    ensures Join(parts, sep) != []
    ensures Join(parts, sep)[|Join(parts, sep)| - 1] == parts[|parts| - 1][|parts[|parts| - 1]| - 1]
    decreases |parts|
  {
    if |parts| > 1 {
      JoinEnds(parts[1..], sep);
    }
  }

  /** The joined hosts are already stripped. */
  lemma JoinedHostsStripped(hosts: seq<string>)
    requires |hosts| >= 1
    requires forall k :: 0 <= k < |hosts| ==> hosts[k] != [] && NoSpace(hosts[k])
    ensures Join(hosts, '\n') != [] && IsStripped(Join(hosts, '\n'))
  {
    var joined := Join(hosts, '\n');
    JoinEnds(hosts, '\n');
    assert joined[0] == hosts[0][0] by {
      if |hosts| > 1 {
        assert joined == hosts[0] + ['\n'] + Join(hosts[1..], '\n');
      }
    }
    var last := hosts[|hosts| - 1];
    assert !IsSpace(last[|last| - 1]);
  }

  /** The tool prints one host per line; parsing that output gives back the
      hosts, in order. */
  lemma SubdomainOutputRoundTrip(hosts: seq<string>)
    requires forall k :: 0 <= k < |hosts| ==> hosts[k] != [] && NoSpace(hosts[k])
    ensures ParseSubdomainOutput(Join(hosts, '\n') + "\n") == hosts
  {
    var joined := Join(hosts, '\n');
    if hosts == [] {
      StripTerminated(joined);
    } else {
      JoinedHostsStripped(hosts);
      StripTerminated(joined);
      assert forall k :: 0 <= k < |hosts| ==> '\n' !in hosts[k] by {
        assert IsSpace('\n');
      }
      SplitJoin(hosts, '\n');
      NonEmptyKeepsAll(hosts);
    }
  }

  /** What the tool writes for `hosts`: each host followed by its line feed,
      so no hosts means no output at all. */
  function Printout(hosts: seq<string>): (out: string)
    ensures |hosts| >= 1 ==> out == Join(hosts, '\n') + "\n"
  {
    if hosts == [] then [] else hosts[0] + "\n" + Printout(hosts[1..])
  }

  /** Parsing what the tool writes gives back the hosts, in order; an empty
      output gives no hosts. */
  lemma SubdomainPrintoutRoundTrip(hosts: seq<string>)
    requires forall k :: 0 <= k < |hosts| ==> hosts[k] != [] && NoSpace(hosts[k])
    ensures ParseSubdomainOutput(Printout(hosts)) == hosts
  {
    if hosts != [] {
      SubdomainOutputRoundTrip(hosts);
    }
  }

  /** Every non-empty line of the stripped output is a host, kept as often as
      it occurs. */
  lemma ParseSubdomainOutputCounts(stdout: string)
    ensures multiset(ParseSubdomainOutput(stdout))
         == multiset(Split(Strip(stdout), '\n'))[[] := 0]
  {
    NonEmptyCounts(Split(Strip(stdout), '\n'));
  }

  /** Each line stripped. */
  function StripAll(lines: seq<string>): (r: seq<string>)
    ensures |r| == |lines|
    ensures forall k :: 0 <= k < |lines| ==> r[k] == Strip(lines[k])
    decreases |lines|
  {
    if lines == [] then [] else [Strip(lines[0])] + StripAll(lines[1..])
  }

  /** `[line.strip() for line in lines if line.strip()]` over the lines of the
      URL file: the stripped, non-blank lines in their order. */
  function ParseUrlFile(lines: seq<string>): (r: seq<string>)
    ensures forall k :: 0 <= k < |r| ==> r[k] != [] && IsStripped(r[k])
    decreases |lines|
  {
    if lines == [] then []
    else if Strip(lines[0]) != [] then [Strip(lines[0])] + ParseUrlFile(lines[1..])
    else ParseUrlFile(lines[1..])
  }

  /** The URL file parse keeps exactly the stripped lines that are not blank:
      they appear in file order, every one of them, as often as in the file. */
  lemma {:induction false} ParseUrlFileKeepsNonBlank(lines: seq<string>)
    ensures ParseUrlFile(lines) == NonEmpty(StripAll(lines))
    ensures IsSubseq(ParseUrlFile(lines), StripAll(lines))
    ensures multiset(ParseUrlFile(lines)) == multiset(StripAll(lines))[[] := 0]
    decreases |lines|
  {
    NonEmptyCounts(StripAll(lines));
    if lines != [] {
      ParseUrlFileKeepsNonBlank(lines[1..]);
      assert StripAll(lines)[1..] == StripAll(lines[1..]);
    }
  }

  /** Each URL on its own line, as `readlines` returns them. */
  function Terminated(urls: seq<string>): seq<string>
    decreases |urls|
  {
    if urls == [] then [] else [urls[0] + "\n"] + Terminated(urls[1..])
  }

  /** One step of the URL file parse: the first line, then the rest. */
  lemma ParseUrlFileCons(line: string, rest: seq<string>)
    ensures ParseUrlFile([line] + rest)
            == (if Strip(line) != [] then [Strip(line)] else []) + ParseUrlFile(rest)
  {
    assert ([line] + rest)[1..] == rest;
  }

  /** Reading back a file written one URL per line gives the URLs, in order. */
  lemma {:induction false} UrlFileRoundTrip(urls: seq<string>)
    requires forall k :: 0 <= k < |urls| ==> urls[k] != [] && IsStripped(urls[k])
    ensures ParseUrlFile(Terminated(urls)) == urls
    decreases |urls|
  {
    if urls != [] {
      StripTerminated(urls[0]);
      UrlFileRoundTrip(urls[1..]);
      ParseUrlFileCons(urls[0] + "\n", Terminated(urls[1..]));
      assert urls == [urls[0]] + urls[1..];
    }
  }

  // ---------------------------------------------------------------------
  // The command line
  // ---------------------------------------------------------------------

  /** The three options of the command line; `None` when not given. */
  datatype Args = Args(url: Option<string>, subdomains: Option<string>, urlfile: Option<string>)

  /** Python truthiness of an optional string: given and not empty. */
  predicate Given(o: Option<string>) {
    o.Some? && o.value != []
  }

  /** The three modes, and printing the usage when none is selected. */
  datatype Mode = SingleUrl(url: string) | SubdomainSweep(domain: string) | UrlFile(path: string) | Usage

  /** The `if`/`elif` chain of `main`: `--url` wins over `--subdomains`, which
      wins over `--urlfile`; an empty argument counts as absent. */
  function SelectMode(args: Args): (m: Mode)
    ensures m.Usage? <==> !Given(args.url) && !Given(args.subdomains) && !Given(args.urlfile)
    ensures m.SingleUrl? <==> Given(args.url)
    ensures m.SubdomainSweep? <==> !Given(args.url) && Given(args.subdomains)
    ensures m.SingleUrl? ==> m.url == args.url.value && m.url != []
    ensures m.SubdomainSweep? ==> m.domain == args.subdomains.value && m.domain != []
    ensures m.UrlFile? ==> m.path == args.urlfile.value && m.path != []
  {
    if Given(args.url) then SingleUrl(args.url.value)
    else if Given(args.subdomains) then SubdomainSweep(args.subdomains.value)
    else if Given(args.urlfile) then UrlFile(args.urlfile.value)
    else Usage
  }

  /** The name `output_pdf_name` starts with before a mode sets it. */
  const DefaultOutputName := "screenshots"

  /** The output name in subdomain-sweep mode: the sanitised domain followed
      by `_subdomains`. */
  function SweepName(domain: string): (name: string)
    ensures '/' !in name
    ensures |name| >= 11 && name[|name| - 11..] == "_subdomains"
  {
    var name := SanitizeFilename(domain) + "_subdomains";
    assert name[|name| - 11..] == "_subdomains";
    name
  }

  /** `output_pdf_name` per mode: the sanitised URL, the sanitised domain with
      `_subdomains` appended, or the sanitised base name of the URL file.
      Every one of them is a single path component. */
  function OutputBaseName(m: Mode): (name: string)
    ensures '/' !in name
    ensures m.SubdomainSweep? ==> |name| >= 11 && name[|name| - 11..] == "_subdomains"
    ensures m.UrlFile? ==> name == Strip(Basename(m.path))
  {
    match m
    case SingleUrl(u) => SanitizeFilename(u)
    case SubdomainSweep(d) => SweepName(d)
    case UrlFile(p) =>
      SanitizedBasename(p);
      SanitizeFilename(Basename(p))
    case Usage =>
      assert forall k :: 0 <= k < |DefaultOutputName| ==> DefaultOutputName[k] != '/';
      DefaultOutputName
  }

  /** What `main` hands to `capture_urls`: the targets and the output name. */
  datatype Run = Run(urls: seq<string>, outputName: string)

  /** `main` without its I/O: `toolStdout` is what the subdomain finder
      printed (`None` when it could not be run) and `fileLines` the lines of
      the URL file. No mode means no run; otherwise every target is a
      non-empty string and the output name is a single path component. */
  function PlanRun(args: Args, toolStdout: Option<string>, fileLines: seq<string>): (r: Option<Run>)
    ensures r.None? <==> SelectMode(args).Usage?
    ensures r.Some? ==> '/' !in r.value.outputName
    ensures r.Some? ==> forall k :: 0 <= k < |r.value.urls| ==> r.value.urls[k] != []
    ensures r.Some? ==> r.value.outputName == OutputBaseName(SelectMode(args))
    ensures SelectMode(args).SingleUrl? ==> r.value.urls == [args.url.value]
    ensures SelectMode(args).SubdomainSweep? ==> r.value.urls == DiscoverSubdomains(toolStdout)
    ensures SelectMode(args).UrlFile? ==> r.value.urls == ParseUrlFile(fileLines)
  {
    var m := SelectMode(args);
    match m
    case SingleUrl(u) => Some(Run([u], OutputBaseName(m)))
    case SubdomainSweep(_) => Some(Run(DiscoverSubdomains(toolStdout), OutputBaseName(m)))
    case UrlFile(_) => Some(Run(ParseUrlFile(fileLines), OutputBaseName(m)))
    case Usage => None
  }
}
