/** Path and list helpers shared across the pipeline: `join_path`,
    `get_top_percent_list`, `mymax` and the S3 path parsers. Python's
    `str.split`, `str.join` and `str.startswith` are written out here on
    code-point sequences. */
module Commons {
  import opened Base
  import opened TextUtil

  // ---------------------------------------------------------------------
  // Python string primitives
  // ---------------------------------------------------------------------

  /** `s.startswith(p)`. */
  predicate StartsWith(s: string, p: string) {
    |p| <= |s| && s[..|p|] == p
  }

  /** `t` occurs in `s` at position `i`. */
  predicate OccursAt(s: string, t: string, i: nat) {
    i + |t| <= |s| && s[i..i + |t|] == t
  }

  function FindFrom(s: string, t: string, i: nat): (r: Option<nat>)
    requires |t| > 0
    ensures r.Some? ==> (i <= r.value && OccursAt(s, t, r.value)
      && forall k: nat :: i <= k < r.value ==> !OccursAt(s, t, k))
    ensures r.None? ==> forall k: nat :: i <= k ==> !OccursAt(s, t, k)
    decreases |s| - i
  {
    if i + |t| > |s| then None
    else if s[i..i + |t|] == t then Some(i)
    else FindFrom(s, t, i + 1)
  }

  /** The search passes over positions where `t` does not occur. */
  lemma {:induction false} FindFromSkip(s: string, t: string, i: nat, j: nat)
    requires |t| > 0 && i <= j && j + |t| <= |s|
    requires forall k: nat :: i <= k < j ==> !OccursAt(s, t, k)
    ensures FindFrom(s, t, i) == FindFrom(s, t, j)
    decreases j - i
  {
    if i < j {
      assert !OccursAt(s, t, i);
      FindFromSkip(s, t, i + 1, j);
    }
  }

  /** `s.find(t)` for a non-empty `t`, with None for -1: the leftmost
      occurrence, which is where `s.split(t)` makes its first cut. */
  function FindSub(s: string, t: string): (r: Option<nat>)
    requires |t| > 0
    ensures r.Some? ==> (OccursAt(s, t, r.value)
      && forall k: nat :: k < r.value ==> !OccursAt(s, t, k))
    ensures r.None? ==> forall k: nat :: !OccursAt(s, t, k)
  {
    FindFrom(s, t, 0)
  }

  /** `s.split(c)` for a one-character separator: the pieces between
      consecutive occurrences of `c`, so there is always at least one. */
  function Split(s: string, c: char): (r: seq<string>)
    ensures |r| >= 1
    ensures forall k :: 0 <= k < |r| ==> c !in r[k]
  {
    if |s| == 0 then [""]
    else
      var rest := Split(s[1..], c);
      if s[0] == c then [""] + rest
      else [[s[0]] + rest[0]] + rest[1..]
  }

  /** `sep.join(parts)`. */
  function JoinWith(sep: string, parts: seq<string>): string {
    if |parts| == 0 then ""
    else if |parts| == 1 then parts[0]
    else parts[0] + sep + JoinWith(sep, parts[1..])
  }

  lemma JoinWithHead(sep: string, a: string, x: string, t: seq<string>)
    ensures JoinWith(sep, [a + x] + t) == a + JoinWith(sep, [x] + t)
  {
    if |t| > 0 {
      assert ([a + x] + t)[1..] == t == ([x] + t)[1..];
    }
  }

  /** Joining the pieces of a split with the same separator gives the
      string back. */
  lemma {:induction false} JoinSplit(s: string, c: char)
    ensures JoinWith([c], Split(s, c)) == s
  {
    if |s| > 0 {
      var rest := Split(s[1..], c);
      JoinSplit(s[1..], c);
      if s[0] == c {
        assert ([""] + rest)[1..] == rest;
        assert [c] + s[1..] == s;
      } else {
        JoinWithHead([c], [s[0]], rest[0], rest[1..]);
        assert [rest[0]] + rest[1..] == rest;
        assert [s[0]] + s[1..] == s;
      }
    }
  }

  /** A string without the separator is a single piece. */
  lemma {:induction false} SplitNoSep(s: string, c: char)
    requires c !in s
    ensures Split(s, c) == [s]
  {
    if |s| > 0 {
      assert c !in s[1..];
      SplitNoSep(s[1..], c);
      assert [s[0]] + s[1..] == s;
    }
  }

  /** The first separator closes the first piece. */
  lemma {:induction false} SplitAfter(a: string, b: string, c: char)
    requires c !in a
    ensures Split(a + [c] + b, c) == [a] + Split(b, c)
  {
    if |a| == 0 {
      assert (a + [c] + b)[1..] == b;
    } else {
      assert (a + [c] + b)[1..] == a[1..] + [c] + b;
      assert c !in a[1..];
      SplitAfter(a[1..], b, c);
      assert [a[0]] + a[1..] == a;
    }
  }

  /** Splitting a join of separator-free pieces gives the pieces back. */
  lemma {:induction false} SplitJoin(parts: seq<string>, c: char)
    requires |parts| >= 1
    requires forall k :: 0 <= k < |parts| ==> c !in parts[k]
    ensures Split(JoinWith([c], parts), c) == parts
  {
    if |parts| == 1 {
      SplitNoSep(parts[0], c);
    } else {
      SplitJoin(parts[1..], c);
      SplitAfter(parts[0], JoinWith([c], parts[1..]), c);
      assert [parts[0]] + parts[1..] == parts;
    }
  }

  /** The first piece is the text before the first separator. */
  lemma {:induction false} SplitHead(s: string, c: char)
    ensures var h := Split(s, c)[0];
      |h| <= |s| && h == s[..|h|] && (|h| < |s| ==> s[|h|] == c)
  {
    if |s| > 0 {
      SplitHead(s[1..], c);
      var rest := Split(s[1..], c);
      if s[0] != c {
        assert rest[0] == s[1..][..|rest[0]|];
      }
    }
  }

  lemma {:induction false} JoinWithSnoc(sep: string, init: seq<string>, x: string)
    requires |init| > 0
    ensures JoinWith(sep, init + [x]) == JoinWith(sep, init) + sep + x
  {
    assert (init + [x])[1..] == init[1..] + [x];
    if |init| > 1 {
      JoinWithSnoc(sep, init[1..], x);
    } else {
      assert init[1..] + [x] == [x];
    }
  }

  /** Joining two non-empty lists: the joins of each, with one separator between. */
  lemma {:induction false} JoinWithAppend(sep: string, a: seq<string>, b: seq<string>)
    requires |a| > 0 && |b| > 0
    ensures JoinWith(sep, a + b) == JoinWith(sep, a) + sep + JoinWith(sep, b)
  {
    assert (a + b)[0] == a[0];
    if |a| > 1 {
      assert (a + b)[1..] == a[1..] + b;
      JoinWithAppend(sep, a[1..], b);
    } else {
      assert (a + b)[1..] == b;
    }
  }

  lemma {:induction false} JoinWithFree(sep: string, parts: seq<string>, c: char)
    requires c !in sep
    requires forall k :: 0 <= k < |parts| ==> c !in parts[k]
    ensures c !in JoinWith(sep, parts)
  {
    if |parts| > 1 {
      JoinWithFree(sep, parts[1..], c);
    }
  }

  // ---------------------------------------------------------------------
  // join_path
  // ---------------------------------------------------------------------

  /** `s.rstrip('/')`. */
  function RStripSlash(s: string): (r: string)
    ensures |r| <= |s| && r == s[..|r|]
    ensures forall k :: |r| <= k < |s| ==> s[k] == '/'
    ensures |r| == 0 || r[|r| - 1] != '/'
  {
    if |s| > 0 && s[|s| - 1] == '/' then RStripSlash(s[..|s| - 1]) else s
  }

  /** `join_path(*args)`: each argument loses its trailing slashes and the
      results are joined with single slashes. */
  function JoinPath(args: seq<string>): string {
    JoinWith("/", StripSlashes(args))
  }

  /** Every argument without its trailing slashes. */
  function StripSlashes(args: seq<string>): (r: seq<string>)
    ensures |r| == |args|
    ensures forall k :: 0 <= k < |args| ==> r[k] == RStripSlash(args[k])
  {
    if |args| == 0 then [] else [RStripSlash(args[0])] + StripSlashes(args[1..])
  }

  /** The path splits back into the arguments, trailing slashes removed,
      as long as no argument has an inner slash: every slash of the
      result is a separator the join put there. */
  lemma JoinPathPieces(args: seq<string>)
    requires |args| >= 1
    requires forall k :: 0 <= k < |args| ==> '/' !in RStripSlash(args[k])
    ensures var pieces := Split(JoinPath(args), '/');
      |pieces| == |args|
      && forall k :: 0 <= k < |args| ==> pieces[k] == RStripSlash(args[k])
  {
    SplitJoin(StripSlashes(args), '/');
  }

  /** A join of arguments that are not all slashes never ends in a slash. */
  lemma {:induction false} JoinPathNoTrailingSlash(args: seq<string>)
    requires |args| >= 1 && RStripSlash(args[|args| - 1]) != ""
    ensures var r := JoinPath(args); |r| > 0 && r[|r| - 1] != '/'
  {
    var m := StripSlashes(args);
    JoinWithLast("/", m);
    var r := JoinWith("/", m);
    var p := m[|m| - 1];
    assert r[|r| - |p|..][|p| - 1] == r[|r| - 1];
  }

  lemma {:induction false} JoinWithLast(sep: string, parts: seq<string>)
    requires |parts| >= 1
    ensures var r := JoinWith(sep, parts); var p := parts[|parts| - 1];
      |p| <= |r| && r[|r| - |p|..] == p
  {
    if |parts| > 1 {
      JoinWithLast(sep, parts[1..]);
    }
  }

  // ---------------------------------------------------------------------
  // get_top_percent_list and mymax
  // ---------------------------------------------------------------------

  /** Where Python's slice `s[:k]` ends on a list of length `n`. */
  function SliceEnd(k: int, n: nat): (e: nat)
    ensures e <= n
    ensures 0 <= k <= n ==> e == k
  {
    if k < 0 then (if n + k < 0 then 0 else n + k)
    else if k > n then n
    else k
  }

  function Neg(x: real): real { -x }

  /** `sorted(xs, reverse=True)`. */
  function SortDesc(xs: seq<real>): (r: seq<real>)
    ensures multiset(r) == multiset(xs) && |r| == |xs|
    ensures forall i, j :: 0 <= i < j < |r| ==> r[i] >= r[j]
  {
    var s := SortBy(xs, Neg);
    assert forall i, j :: 0 <= i < j < |s| ==> Neg(s[i]) <= Neg(s[j]);
    s
  }

  lemma ScaledBelow(n: real, p: real)
    requires 0.0 <= n && 0.0 <= p <= 1.0
    ensures 0.0 <= n * p <= n
  {
    assert n * p <= n * 1.0;
  }

  /** How many values `get_top_percent_list` keeps out of `n`. */
  function TopCount(n: nat, percent: real): (e: nat)
    ensures e <= n
    ensures 0.0 <= percent <= 1.0 ==> e == (n as real * percent).Floor
  {
    if 0.0 <= percent <= 1.0 then ScaledBelow(n as real, percent); SliceEnd(Trunc(n as real * percent), n)
    else SliceEnd(Trunc(n as real * percent), n)
  }

  /** `get_top_percent_list`: the first `int(n * percent)` values of the
      descending sort, with Python's slice rules for an index outside the
      list. */
  function GetTopPercentList(xs: seq<real>, percent: real): (r: seq<real>)
    ensures |xs| == 0 ==> r == []
    ensures 0.0 <= percent <= 1.0 ==> |r| == (|xs| as real * percent).Floor
    ensures multiset(r) <= multiset(xs)
    ensures forall i, j :: 0 <= i < j < |r| ==> r[i] >= r[j]
  {
    var e := TopCount(|xs|, percent);
    assert 0.0 <= percent <= 1.0 ==> e == (|xs| as real * percent).Floor;
    if |xs| == 0 then
      assert e == 0 && xs[..e] == [];
      xs[..e]
    else
      var s := SortDesc(xs);
      assert s == s[..e] + s[e..];
      assert |s[..e]| == e;
      s[..e]
  }

  lemma MultisetRest<T>(s: seq<T>, e: nat)
    requires e <= |s|
    ensures multiset(s) - multiset(s[..e]) == multiset(s[e..])
  {
    assert s == s[..e] + s[e..];
  }

  lemma PrefixIsTop(s: seq<real>, e: nat)
    requires e <= |s|
    requires forall i, j :: 0 <= i < j < |s| ==> s[i] >= s[j]
    ensures forall x, y :: x in s[..e] && y in s[e..] ==> y <= x
  {
    forall x, y | x in s[..e] && y in s[e..] ensures y <= x {
      var i :| 0 <= i < e && s[..e][i] == x;
      var j :| 0 <= j < |s| - e && s[e..][j] == y;
      assert s[i] == x && s[e + j] == y;
    }
  }

  /** Nothing left out of the list is larger than anything kept. */
  lemma TopPercentIsTop(xs: seq<real>, percent: real)
    ensures var r := GetTopPercentList(xs, percent);
      forall x, y :: x in r && y in multiset(xs) - multiset(r) ==> y <= x
  {
    var r := GetTopPercentList(xs, percent);
    if |xs| > 0 {
      var s := SortDesc(xs);
      var e := |r|;
      assert r == s[..e];
      MultisetRest(s, e);
      PrefixIsTop(s, e);
    }
  }

  /** `mymax`: 0 for an empty list, otherwise `max`. */
  function MyMax(xs: seq<real>): (m: real)
    ensures |xs| == 0 ==> m == 0.0
    ensures |xs| > 0 ==> m in xs && forall x :: x in xs ==> x <= m
  {
    if |xs| == 0 then 0.0
    else if |xs| == 1 then xs[0]
    else
      var init := xs[..|xs| - 1];
      assert xs == init + [xs[|xs| - 1]];
      MaxR(MyMax(init), xs[|xs| - 1])
  }

  // ---------------------------------------------------------------------
  // S3 paths
  // ---------------------------------------------------------------------

  /** Splitting at the first `c` of `a + [c] + b` gives `a` and `b` back
      when `a` has no `c`. */
  lemma {:induction false} FirstSeparator(a: string, b: string, c: char)
    requires c !in a
    ensures var s := a + [c] + b;
      IndexOf(s, c) == Some(|a|) && s[..|a|] == a && s[|a| + 1..] == b
  {
    if |a| > 0 {
      assert (a + [c] + b)[1..] == a[1..] + [c] + b;
      assert c !in a[1..];
      FirstSeparator(a[1..], b, c);
    }
  }

  /** What `parse_bucket_key` splits: the stripped path without an
      `s3://` prefix and then without one leading slash. */
  function BucketKeyBody(path: string): string {
    var s := Strip(path);
    var s1 := if StartsWith(s, "s3://") then s[5..] else s;
    if StartsWith(s1, "/") then s1[1..] else s1
  }

  /** `parse_bucket_key`: None where the source's tuple unpacking raises
      ValueError because no slash is left to split at. */
  function ParseBucketKey(path: string): (r: Option<(string, string)>)
    ensures r.None? <==> '/' !in BucketKeyBody(path)
    ensures r.Some? ==> ('/' !in r.value.0
      && BucketKeyBody(path) == r.value.0 + "/" + r.value.1)
  {
    var s := BucketKeyBody(path);
    match IndexOf(s, '/')
    case None => None
    case Some(i) =>
      assert s == s[..i] + "/" + s[i + 1..];
      Some((s[..i], s[i + 1..]))
  }

  /** Round trip: a well-formed `s3://bucket/key` parses into its parts. */
  lemma ParseBucketKeyRoundTrip(b: string, k: string)
    requires b != "" && '/' !in b
    requires |k| == 0 || !IsSpace(k[|k| - 1])
    ensures ParseBucketKey("s3://" + b + "/" + k) == Some((b, k))
  {
    var p := "s3://" + b + "/" + k;
    assert p[0] == 's';
    assert p[|p| - 1] == if |k| == 0 then '/' else k[|k| - 1];
    StripFixed(p);
    var body := b + "/" + k;
    assert p[..5] == "s3://" && p[5..] == body;
    assert body[0] == b[0] && b[0] in b;
    assert BucketKeyBody(p) == body;
    FirstSeparator(b, k, '/');
  }

  /** `remove_non_official_s3_args`: the text before the first `?`. */
  function RemoveNonOfficialS3Args(path: string): (r: string)
    ensures |r| <= |path| && r == path[..|r|] && '?' !in r
    ensures |r| < |path| ==> path[|r|] == '?'
  {
    SplitHead(path, '?');
    Split(path, '?')[0]
  }

  /** Dropping the arguments twice changes nothing more. */
  lemma RemoveNonOfficialS3ArgsIdempotent(path: string)
    ensures RemoveNonOfficialS3Args(RemoveNonOfficialS3Args(path)) == RemoveNonOfficialS3Args(path)
  {
    SplitNoSep(RemoveNonOfficialS3Args(path), '?');
  }

  /** Arguments after a path without `?` are exactly what is removed. */
  lemma RemoveArgsSuffix(core: string, args: string)
    requires '?' !in core
    requires args == "" || args[0] == '?'
    ensures RemoveNonOfficialS3Args(core + args) == core
  {
    if args == "" {
      assert core + args == core;
      SplitNoSep(core, '?');
    } else {
      assert core + args == core + ['?'] + args[1..];
      SplitAfter(core, args[1..], '?');
    }
  }

  datatype S3PathError = StartsWithSlash | NotS3 | NoKeySeparator

  /** A parsed S3 path, or the ValueError the source raises. */
  datatype S3Path = S3Path(bucket: string, key: string) | S3PathFailure(error: S3PathError)

  /** What `parse_s3path` inspects: the path without arguments, stripped. */
  function CleanS3Path(path: string): string {
    Strip(RemoveNonOfficialS3Args(path))
  }

  predicate HasS3Scheme(s: string) {
    StartsWith(s, "s3://") || StartsWith(s, "s3a://")
  }

  /** Where the part after `://` starts. */
  function SchemeEnd(s: string): (e: nat)
    requires HasS3Scheme(s)
    ensures e <= |s|
  {
    if StartsWith(s, "s3://") then 5 else 6
  }

  /** The first `://` of a path with an S3 scheme ends the scheme. */
  lemma SchemeSeparator(s: string)
    requires HasS3Scheme(s)
    ensures FindSub(s, "://") == Some(SchemeEnd(s) - 3)
  {
    var i := SchemeEnd(s) - 3;
    assert s[i..i + 3] == "://";
    assert OccursAt(s, "://", i);
    var r := FindSub(s, "://");
    assert !OccursAt(s, "://", 0) by { assert s[0] == 's'; }
    assert !OccursAt(s, "://", 1) by { assert s[1] == '3'; }
    if i == 3 {
      assert !OccursAt(s, "://", 2) by { assert s[2] == 'a'; }
    }
  }

  /** `parse_s3path` on a path already cleaned of arguments and
      surrounding whitespace. */
  function ParseCleanS3Path(s: string): (r: S3Path)
    ensures r == S3PathFailure(StartsWithSlash) <==> StartsWith(s, "/")
    ensures r == S3PathFailure(NotS3) <==> !HasS3Scheme(s) && !StartsWith(s, "/")
    ensures r == S3PathFailure(NoKeySeparator) <==> HasS3Scheme(s) && '/' !in s[SchemeEnd(s)..]
    ensures r.S3Path? ==> (HasS3Scheme(s) && '/' !in r.bucket
      && s[SchemeEnd(s)..] == r.bucket + "/" + r.key)
  {
    if HasS3Scheme(s) then
      SchemeSeparator(s);
      assert s[0] == 's';
      var i := FindSub(s, "://").value;
      var rest := s[i + 3..];
      assert rest == s[SchemeEnd(s)..];
      match IndexOf(rest, '/')
      case None => S3PathFailure(NoKeySeparator)
      case Some(j) =>
        assert rest == rest[..j] + "/" + rest[j + 1..];
        S3Path(rest[..j], rest[j + 1..])
    else if StartsWith(s, "/") then S3PathFailure(StartsWithSlash)
    else S3PathFailure(NotS3)
  }

  /** `parse_s3path`: any `?...` arguments are dropped and the rest is
      stripped before the scheme is checked. */
  function ParseS3Path(path: string): (r: S3Path)
    ensures r.S3Path? ==> '?' !in r.bucket + r.key
  {
    StripKeepsOut(RemoveNonOfficialS3Args(path), '?');
    ParsedWithoutArgs(CleanS3Path(path));
    ParseCleanS3Path(CleanS3Path(path))
  }

  lemma ParsedWithoutArgs(s: string)
    requires '?' !in s
    ensures var r := ParseCleanS3Path(s); r.S3Path? ==> '?' !in r.bucket + r.key
  {
    var r := ParseCleanS3Path(s);
    if r.S3Path? {
      var rest := s[SchemeEnd(s)..];
      assert forall ch :: ch in rest ==> ch in s;
      assert forall ch :: ch in r.bucket + r.key ==> ch in rest;
    }
  }

  /** `strip()` only removes characters. */
  lemma StripKeepsOut(s: string, c: char)
    requires c !in s
    ensures c !in Strip(s)
  {
    StripLeftSpec(s);
    var l := StripLeft(s);
    StripRightSpec(l);
    assert forall ch :: ch in l ==> ch in s;
    assert forall ch :: ch in StripRight(l) ==> ch in l;
  }

  lemma CleanRoundTrip(core: string, args: string)
    requires '?' !in core && |core| > 0 && !IsSpace(core[0]) && !IsSpace(core[|core| - 1])
    requires args == "" || args[0] == '?'
    ensures CleanS3Path(core + args) == core
  {
    RemoveArgsSuffix(core, args);
    StripFixed(core);
  }

  lemma ParseCleanRoundTrip(scheme: string, b: string, k: string)
    requires scheme == "s3" || scheme == "s3a"
    requires '/' !in b
    ensures ParseCleanS3Path(scheme + "://" + b + "/" + k) == S3Path(b, k)
  {
    var core := scheme + "://" + b + "/" + k;
    var rest := b + "/" + k;
    if scheme == "s3" {
      assert core[..5] == "s3://" && core[5..] == rest;
    } else {
      assert core[2] == 'a' && core[..6] == "s3a://" && core[6..] == rest;
    }
    assert core[SchemeEnd(core)..] == rest;
    FirstSeparator(b, k, '/');
    SchemeSeparator(core);
  }

  /** Round trip: `s3://bucket/key` and `s3a://bucket/key` parse into their
      parts whatever `?...` arguments follow. */
  lemma ParseS3PathRoundTrip(scheme: string, b: string, k: string, args: string)
    requires scheme == "s3" || scheme == "s3a"
    requires '/' !in b && '?' !in b + k
    requires |k| == 0 || !IsSpace(k[|k| - 1])
    requires args == "" || args[0] == '?'
    ensures ParseS3Path(scheme + "://" + b + "/" + k + args) == S3Path(b, k)
  {
    var core := scheme + "://" + b + "/" + k;
    assert '?' !in core;
    assert core[0] == 's';
    assert core[|core| - 1] == if |k| == 0 then '/' else k[|k| - 1];
    CleanRoundTrip(core, args);
    ParseCleanRoundTrip(scheme, b, k);
  }

  const BytesMarker: string := "?bytes="

  /** The text `split("?bytes=")` puts second: from the first marker up to
      the next one or the end. */
  function RangeSegment(path: string, i: nat): string
    requires i + |BytesMarker| <= |path|
  {
    var rest := path[i + |BytesMarker|..];
    match FindSub(rest, BytesMarker)
    case None => rest
    case Some(j) => rest[..j]
  }

  /** `parse_s3_range_params`: None without a `?bytes=` marker, otherwise
      the comma-separated pieces that follow it. */
  function ParseS3RangeParams(path: string): (r: Option<seq<string>>)
    ensures r.None? <==> forall k: nat :: !OccursAt(path, BytesMarker, k)
    ensures r.Some? ==> (|r.value| >= 1
      && (forall k :: 0 <= k < |r.value| ==> ',' !in r.value[k])
      && exists i: nat :: (OccursAt(path, BytesMarker, i)
        && JoinWith(",", r.value) == RangeSegment(path, i)))
  {
    match FindSub(path, BytesMarker)
    case None => None
    case Some(i) =>
      var seg := RangeSegment(path, i);
      JoinSplit(seg, ',');
      Some(Split(seg, ','))
  }

  /** A `?bytes=` marker can only start at a question mark. */
  lemma NoMarkerWithoutQuestion(s: string, k: nat)
    requires k < |s| && s[k] != '?'
    ensures !OccursAt(s, BytesMarker, k)
  {
    if k + |BytesMarker| <= |s| {
      assert s[k..k + |BytesMarker|][0] == s[k];
    }
  }

  /** Round trip: numbers appended after `?bytes=` to a path without
      question marks come back as written. */
  lemma RangeParamsRoundTrip(base: string, nums: seq<string>)
    requires '?' !in base && |nums| >= 1
    requires forall k :: 0 <= k < |nums| ==> ',' !in nums[k] && '?' !in nums[k]
    ensures ParseS3RangeParams(base + BytesMarker + JoinWith(",", nums)) == Some(nums)
  {
    var tail := JoinWith(",", nums);
    var p := base + BytesMarker + tail;
    assert p[|base|..|base| + |BytesMarker|] == BytesMarker;
    assert OccursAt(p, BytesMarker, |base|);
    forall k: nat | k < |base| ensures !OccursAt(p, BytesMarker, k) {
      assert p[k] == base[k];
      NoMarkerWithoutQuestion(p, k);
    }
    FindFromSkip(p, BytesMarker, 0, |base|);
    JoinWithFree(",", nums, '?');
    assert p[|base| + |BytesMarker|..] == tail;
    forall k: nat ensures !OccursAt(tail, BytesMarker, k) {
      if k < |tail| {
        NoMarkerWithoutQuestion(tail, k);
      }
    }
    SplitJoin(nums, ',');
  }
}
