/**
 * Nanobody CDR lookup: the fixed IMGT offset table, the substring-locate
 * step applied to the numbering library's CDR substrings, and the two
 * identify-CDRs reports.
 */
module Cdr {
  import opened Wrappers
  import opened Ordering
  import opened Scaffold

  /** An inclusive residue range (start, end) of the offset table. */
  datatype Span = Span(start: int, end: int)

  /** The fallback offset table: inclusive, 0-indexed residue ranges. */
  const ImgtTable: map<string, Span> :=
    map["CDR1" := Span(26, 35), "CDR2" := Span(49, 65), "CDR3" := Span(94, 102)]

  /** The names of the table in its iteration order. */
  const CdrNames: seq<string> := ["CDR1", "CDR2", "CDR3"]

  function Min(a: int, b: int): int { if a <= b then a else b }

  function Max(a: int, b: int): int { if a <= b then b else a }

  /** range(lo, hi) */
  function Range(lo: int, hi: int): seq<int>
  {
    seq(if lo <= hi then hi - lo else 0, i => lo + i)
  }

  /** range(lo, hi) holds exactly lo, lo + 1, ..., hi - 1, in increasing order (nothing when hi <= lo). */
  lemma InRange(lo: int, hi: int, x: int)
    ensures x in Range(lo, hi) <==> lo <= x < hi
    ensures |Range(lo, hi)| == (if lo <= hi then hi - lo else 0)
    ensures StrictlyIncreasing(Range(lo, hi))
  {
    if lo <= x < hi {
      assert Range(lo, hi)[x - lo] == x;
    }
  }

  // ---------------------------------------------------------------------
  // Requested region names
  // ---------------------------------------------------------------------

  /** The first requested name that is not CDR1, CDR2 or CDR3: the one the lookup raises on. */
  function FirstUnknown(names: seq<string>): (r: Option<string>)
    ensures r.None? <==> forall i :: 0 <= i < |names| ==> names[i] in ImgtTable
    ensures r.Some? ==> r.value in names && r.value !in ImgtTable
  {
    if names == [] then None
    else if names[0] !in ImgtTable then Some(names[0])
    else FirstUnknown(names[1..])
  }

  lemma FirstUnknownStep(names: seq<string>, i: nat)
    requires i < |names|
    ensures FirstUnknown(names[i..]) ==
      if names[i] !in ImgtTable then Some(names[i]) else FirstUnknown(names[i + 1..])
  {
    assert names[i..][1..] == names[i + 1..];
  }

  // ---------------------------------------------------------------------
  // Fallback residues: the offset table
  // ---------------------------------------------------------------------

  /** The list the fallback loop accumulates: each requested range, in request order. */
  function TableResidues(names: seq<string>): seq<int>
    requires forall i :: 0 <= i < |names| ==> names[i] in ImgtTable
  {
    if names == [] then []
    else
      var span := ImgtTable[names[|names| - 1]];
      TableResidues(names[..|names| - 1]) + Range(span.start, span.end + 1)
  }

  /** x lies in the inclusive table range of some requested name. */
  ghost predicate CoveredByTable(names: seq<string>, x: int)
  {
    exists i :: 0 <= i < |names| && names[i] in ImgtTable &&
      ImgtTable[names[i]].start <= x <= ImgtTable[names[i]].end
  }

  lemma {:induction false} TableResiduesCover(names: seq<string>)
    requires forall i :: 0 <= i < |names| ==> names[i] in ImgtTable
    ensures forall x :: x in TableResidues(names) <==> CoveredByTable(names, x)
  {
    if names != [] {
      var init := names[..|names| - 1];
      var span := ImgtTable[names[|names| - 1]];
      TableResiduesCover(init);
      forall x ensures x in TableResidues(names) <==> CoveredByTable(names, x) {
        InRange(span.start, span.end + 1, x);
        if CoveredByTable(init, x) {
          var i :| 0 <= i < |init| && init[i] in ImgtTable &&
            ImgtTable[init[i]].start <= x <= ImgtTable[init[i]].end;
          assert names[i] == init[i];
        }
        if CoveredByTable(names, x) {
          var i :| 0 <= i < |names| && names[i] in ImgtTable &&
            ImgtTable[names[i]].start <= x <= ImgtTable[names[i]].end;
          if i < |init| {
            assert init[i] == names[i];
          }
        }
      }
    }
  }

  /** The result of the fallback residue lookup. */
  function FallbackResidues(names: seq<string>): Result<seq<int>>
  {
    match FirstUnknown(names)
    case Some(n) => Err(UnknownCdr(n))
    case None => Ok(SortedUnique(TableResidues(names)))
  }

  /**
   * The fallback residues are the sorted, duplicate-free union of the
   * inclusive table ranges of the requested names; any unknown name fails.
   */
  lemma FallbackResiduesSpec(names: seq<string>)
    ensures FallbackResidues(names).Err? <==> exists i :: 0 <= i < |names| && names[i] !in ImgtTable
    ensures FallbackResidues(names).Err? ==>
      FirstUnknown(names).Some? && FallbackResidues(names).error == UnknownCdr(FirstUnknown(names).value)
    ensures FallbackResidues(names).Ok? ==>
      StrictlyIncreasing(FallbackResidues(names).value) &&
      forall x :: x in FallbackResidues(names).value <==> CoveredByTable(names, x)
  {
    if FirstUnknown(names).None? {
      TableResiduesCover(names);
    }
  }

  /** CDR1 alone gives residues 26 to 35 inclusive, whatever the sequence length. */
  lemma Cdr1FallbackResidues()
    ensures FallbackResidues(["CDR1"]) == Ok(Range(26, 36))
    ensures |Range(26, 36)| == 10 && Range(26, 36)[0] == 26 && Range(26, 36)[9] == 35
  {
    var names := ["CDR1"];
    assert names[..0] == [];
    assert TableResidues(names) == Range(26, 36);
    SortedUniqueOfIncreasing(Range(26, 36));
  }

  /** The fallback loop: extend with each inclusive range, then sort and deduplicate. */
  method GetCdrResiduesFallback(names: seq<string>) returns (r: Result<seq<int>>)
    ensures r == FallbackResidues(names)
  {
    var residues: seq<int> := [];
    var i := 0;
    while i < |names|
      invariant 0 <= i <= |names|
      invariant forall k :: 0 <= k < i ==> names[k] in ImgtTable
      invariant FirstUnknown(names[i..]) == FirstUnknown(names)
      invariant residues == TableResidues(names[..i])
    {
      var name := names[i];
      FirstUnknownStep(names, i);
      if name !in ImgtTable {
        return Err(UnknownCdr(name));
      }
      var span := ImgtTable[name];
      residues := residues + Range(span.start, span.end + 1);
      assert names[..i + 1][..i] == names[..i];
      i := i + 1;
    }
    assert names[..i] == names;
    return Ok(SortedUnique(residues));
  }

  // ---------------------------------------------------------------------
  // Substring search (str.find)
  // ---------------------------------------------------------------------

  predicate OccursAt(s: string, sub: string, i: int)
  {
    0 <= i && i + |sub| <= |s| && s[i..i + |sub|] == sub
  }

  function FindFrom(s: string, sub: string, k: nat): (i: int)
    ensures i == -1 || (k <= i && OccursAt(s, sub, i))
    ensures forall j :: k <= j && (i == -1 || j < i) ==> !OccursAt(s, sub, j)
    decreases |s| - k
  {
    if k + |sub| > |s| then -1
    else if s[k..k + |sub|] == sub then k
    else FindFrom(s, sub, k + 1)
  }

  /** str.find: the first index where sub occurs in s, or -1 when it does not occur. */
  function Find(s: string, sub: string): (i: int)
    ensures -1 <= i
    ensures i >= 0 ==> OccursAt(s, sub, i)
    ensures forall j :: 0 <= j && (i == -1 || j < i) ==> !OccursAt(s, sub, j)
  {
    FindFrom(s, sub, 0)
  }

  // ---------------------------------------------------------------------
  // Residues from the numbering library's CDR substrings
  // ---------------------------------------------------------------------

  /** What the numbering library reports: the cdr1_seq, cdr2_seq, cdr3_seq attributes. */
  datatype Numbering = Numbering(cdr1: Option<string>, cdr2: Option<string>, cdr3: Option<string>)

  function NumberedCdr(n: Numbering, name: string): Option<string>
  {
    if name == "CDR1" then n.cdr1
    else if name == "CDR2" then n.cdr2
    else if name == "CDR3" then n.cdr3
    else None
  }

  /** The residues one reported substring covers at its first occurrence; none if empty or absent. */
  function LocatedRange(s: string, cdr: Option<string>): seq<int>
  {
    match cdr
    case None => []
    case Some(sub) =>
      if sub == [] then []
      else
        var start := Find(s, sub);
        if start == -1 then [] else Range(start, start + |sub|)
  }

  /** x lies in the first occurrence of a non-empty reported substring. */
  ghost predicate FoundAt(s: string, cdr: Option<string>, x: int)
  {
    cdr.Some? && cdr.value != [] && 0 <= Find(s, cdr.value) <= x < Find(s, cdr.value) + |cdr.value|
  }

  ghost predicate CoveredByNumbering(s: string, names: seq<string>, n: Numbering, x: int)
  {
    exists i :: 0 <= i < |names| && FoundAt(s, NumberedCdr(n, names[i]), x)
  }

  /** The list the numbering-based loop accumulates, in request order. */
  function LocatedResidues(s: string, names: seq<string>, n: Numbering): seq<int>
  {
    if names == [] then []
    else LocatedResidues(s, names[..|names| - 1], n) + LocatedRange(s, NumberedCdr(n, names[|names| - 1]))
  }

  lemma {:induction false} LocatedResiduesCover(s: string, names: seq<string>, n: Numbering)
    ensures forall x :: x in LocatedResidues(s, names, n) <==> CoveredByNumbering(s, names, n, x)
  {
    if names != [] {
      var init := names[..|names| - 1];
      var last := NumberedCdr(n, names[|names| - 1]);
      LocatedResiduesCover(s, init, n);
      forall x ensures x in LocatedResidues(s, names, n) <==> CoveredByNumbering(s, names, n, x) {
        if last.Some? && last.value != [] && Find(s, last.value) != -1 {
          InRange(Find(s, last.value), Find(s, last.value) + |last.value|, x);
        }
        assert x in LocatedRange(s, last) <==> FoundAt(s, last, x);
        if CoveredByNumbering(s, init, n, x) {
          var i :| 0 <= i < |init| && FoundAt(s, NumberedCdr(n, init[i]), x);
          assert names[i] == init[i];
        }
        if CoveredByNumbering(s, names, n, x) {
          var i :| 0 <= i < |names| && FoundAt(s, NumberedCdr(n, names[i]), x);
          if i < |init| {
            assert init[i] == names[i];
          }
        }
      }
    }
  }

  /** The result of the numbering-based residue lookup once the library has numbered the chain. */
  function AbnumberResidues(s: string, names: seq<string>, n: Numbering): Result<seq<int>>
  {
    match FirstUnknown(names)
    case Some(x) => Err(UnknownCdr(x))
    case None => Ok(SortedUnique(LocatedResidues(s, names, n)))
  }

  /**
   * Each non-empty reported substring contributes its first occurrence,
   * one that is not found contributes nothing; the result is sorted,
   * duplicate-free and inside the sequence. An unknown name fails.
   */
  lemma AbnumberResiduesSpec(s: string, names: seq<string>, n: Numbering)
    ensures AbnumberResidues(s, names, n).Err? <==> exists i :: 0 <= i < |names| && names[i] !in ImgtTable
    ensures AbnumberResidues(s, names, n).Ok? ==>
      var r := AbnumberResidues(s, names, n).value;
      StrictlyIncreasing(r) &&
      (forall x :: x in r <==> CoveredByNumbering(s, names, n, x)) &&
      (forall x :: x in r ==> 0 <= x < |s|)
  {
    if FirstUnknown(names).None? {
      LocatedResiduesCover(s, names, n);
      forall x | x in AbnumberResidues(s, names, n).value ensures 0 <= x < |s| {
        var i :| 0 <= i < |names| && FoundAt(s, NumberedCdr(n, names[i]), x);
        assert OccursAt(s, NumberedCdr(n, names[i]).value, Find(s, NumberedCdr(n, names[i]).value));
      }
    }
  }

  /** The numbering-based loop: locate each requested substring, then sort and deduplicate. */
  method GetCdrResiduesAbnumber(s: string, names: seq<string>, n: Numbering) returns (r: Result<seq<int>>)
    ensures r == AbnumberResidues(s, names, n)
  {
    var residues: seq<int> := [];
    var i := 0;
    while i < |names|
      invariant 0 <= i <= |names|
      invariant forall k :: 0 <= k < i ==> names[k] in ImgtTable
      invariant FirstUnknown(names[i..]) == FirstUnknown(names)
      invariant residues == LocatedResidues(s, names[..i], n)
    {
      var name := names[i];
      FirstUnknownStep(names, i);
      if name !in ImgtTable {
        return Err(UnknownCdr(name));
      }
      var cdrSeq := NumberedCdr(n, name);
      if cdrSeq.Some? && cdrSeq.value != [] {
        var startIdx := Find(s, cdrSeq.value);
        if startIdx != -1 {
          var endIdx := startIdx + |cdrSeq.value| - 1;
          residues := residues + Range(startIdx, endIdx + 1);
        }
      }
      assert names[..i + 1][..i] == names[..i];
      i := i + 1;
    }
    assert names[..i] == names;
    return Ok(SortedUnique(residues));
  }

  /**
   * The lookup with its fallback: without a numbering (library missing or
   * the numbering call raised) the offset table is used; an unknown name
   * raised inside the numbering path also lands in the fallback.
   */
  function CdrResidues(s: string, names: seq<string>, numbering: Option<Numbering>): Result<seq<int>>
  {
    match numbering
    case None => FallbackResidues(names)
    case Some(n) =>
      match AbnumberResidues(s, names, n)
      case Ok(residues) => Ok(residues)
      case Err(_) => FallbackResidues(names)
  }

  /**
   * Whichever path is taken, the lookup fails exactly on an unknown name
   * (naming the first one), and otherwise gives sorted, distinct,
   * non-negative residues: exactly the requested table spans without a
   * numbering, exactly the located requested CDRs with one.
   */
  lemma CdrResiduesSpec(s: string, names: seq<string>, numbering: Option<Numbering>)
    ensures CdrResidues(s, names, numbering).Err? <==> FirstUnknown(names).Some?
    ensures CdrResidues(s, names, numbering).Err? ==>
      CdrResidues(s, names, numbering).error == UnknownCdr(FirstUnknown(names).value)
    ensures CdrResidues(s, names, numbering).Ok? ==>
      StrictlyIncreasing(CdrResidues(s, names, numbering).value) &&
      forall x :: x in CdrResidues(s, names, numbering).value ==> 0 <= x
    ensures numbering.Some? && FirstUnknown(names).None? ==>
      CdrResidues(s, names, numbering) == AbnumberResidues(s, names, numbering.value)
    ensures CdrResidues(s, names, numbering).Ok? && numbering.None? ==>
      forall x :: x in CdrResidues(s, names, numbering).value <==> CoveredByTable(names, x)
    ensures CdrResidues(s, names, numbering).Ok? && numbering.Some? ==>
      forall x :: x in CdrResidues(s, names, numbering).value <==> CoveredByNumbering(s, names, numbering.value, x)
  {
    FallbackResiduesSpec(names);
    if numbering.Some? {
      AbnumberResiduesSpec(s, names, numbering.value);
    }
    if FirstUnknown(names).None? && CdrResidues(s, names, numbering) == FallbackResidues(names) {
      forall x | x in FallbackResidues(names).value ensures 0 <= x {
        var i :| 0 <= i < |names| && names[i] in ImgtTable &&
          ImgtTable[names[i]].start <= x <= ImgtTable[names[i]].end;
      }
    }
  }

  /** The residue indices of the configured CDRs in the resolved peptide. */
  function GetNanobodyCdrResidues(c: Config, numbering: Option<Numbering>): (r: Result<seq<int>>)
    ensures c.modality != "nanobody" ==> r == Err(NotNanobody(c.modality))
    ensures c.modality == "nanobody" && c.nanobodyCdrRegions.None? ==> r == Err(MissingCdrRegions)
    ensures r.Ok? ==> c.modality == "nanobody" && c.nanobodyCdrRegions.Some? && GetPeptideSequence(c).Ok?
    ensures r.Ok? ==> StrictlyIncreasing(r.value) && forall x :: x in r.value ==> 0 <= x
    ensures r.Ok? && numbering.None? ==>
      forall x :: x in r.value <==> CoveredByTable(c.nanobodyCdrRegions.value, x)
    ensures r.Ok? && numbering.Some? ==>
      forall x :: x in r.value <==>
        CoveredByNumbering(GetPeptideSequence(c).value, c.nanobodyCdrRegions.value, numbering.value, x)
  {
    if c.modality != "nanobody" then Err(NotNanobody(c.modality))
    else if c.nanobodyCdrRegions.None? then Err(MissingCdrRegions)
    else
      match GetPeptideSequence(c)
      case Err(e) => Err(e)
      case Ok(peptide) =>
        CdrResiduesSpec(peptide, c.nanobodyCdrRegions.value, numbering);
        CdrResidues(peptide, c.nanobodyCdrRegions.value, numbering)
  }

  // ---------------------------------------------------------------------
  // Identify-CDRs reports
  // ---------------------------------------------------------------------

  /** One report entry: start, inclusive end, and the substring. */
  datatype CdrRegion = CdrRegion(start: int, end: int, sub: string)

  /** s[lo:hi] for non-negative bounds, clamped to the sequence as Python slicing does. */
  function Slice(s: string, lo: nat, hi: nat): string
  {
    var a := if lo < |s| then lo else |s|;
    var b := if hi < |s| then hi else |s|;
    if a < b then s[a..b] else []
  }

  /** The fallback entry for one table range: its end clamped to the last residue. */
  function FallbackRegion(s: string, span: Span): CdrRegion
    requires 0 <= span.start <= span.end
  {
    var end := Min(span.end, |s| - 1);
    CdrRegion(span.start, end, Slice(s, span.start, end + 1))
  }

  /** The dictionary the fallback loop fills, one entry per table name visited. */
  function FallbackReport(s: string, names: seq<string>): map<string, CdrRegion>
    requires forall i :: 0 <= i < |names| ==> names[i] in ImgtTable
  {
    if names == [] then map[]
    else
      var name := names[|names| - 1];
      FallbackReport(s, names[..|names| - 1])[name := FallbackRegion(s, ImgtTable[name])]
  }

  lemma {:induction false} FallbackReportEntries(s: string, names: seq<string>)
    requires forall i :: 0 <= i < |names| ==> names[i] in ImgtTable
    ensures forall name :: name in FallbackReport(s, names) <==> name in names
    ensures forall name :: name in names ==>
      FallbackReport(s, names)[name] == FallbackRegion(s, ImgtTable[name])
  {
    if names != [] {
      var init := names[..|names| - 1];
      FallbackReportEntries(s, init);
      assert names == init + [names[|names| - 1]];
    }
  }

  function IdentifyFallback(s: string): map<string, CdrRegion>
  {
    FallbackReport(s, CdrNames)
  }

  /**
   * The fallback report always holds all three CDRs, each starting at its
   * table start, ending at min(table end, len - 1), with the substring
   * s[start:end+1].
   */
  lemma FallbackRegionsSpec(s: string)
    ensures IdentifyFallback(s).Keys == ImgtTable.Keys == {"CDR1", "CDR2", "CDR3"}
    ensures forall name :: name in ImgtTable ==>
      var r := IdentifyFallback(s)[name];
      r.start == ImgtTable[name].start && r.end == Min(ImgtTable[name].end, |s| - 1) &&
      |r.sub| == Max(0, r.end - r.start + 1) &&
      forall k :: 0 <= k < |r.sub| ==> r.sub[k] == s[r.start + k]
  {
    FallbackReportEntries(s, CdrNames);
    assert forall name :: name in CdrNames <==> name in {"CDR1", "CDR2", "CDR3"};
    forall name | name in ImgtTable
      ensures var r := IdentifyFallback(s)[name];
        r.start == ImgtTable[name].start && r.end == Min(ImgtTable[name].end, |s| - 1) &&
        |r.sub| == Max(0, r.end - r.start + 1) &&
        forall k :: 0 <= k < |r.sub| ==> r.sub[k] == s[r.start + k]
    {
      FallbackRegionShape(s, ImgtTable[name]);
    }
  }

  lemma FallbackRegionShape(s: string, span: Span)
    requires 0 <= span.start <= span.end
    ensures var r := FallbackRegion(s, span);
      r.start == span.start && r.end == Min(span.end, |s| - 1) &&
      |r.sub| == Max(0, r.end - r.start + 1) &&
      forall k :: 0 <= k < |r.sub| ==> r.sub[k] == s[r.start + k]
  {
  }

  /** On a sequence long enough for the table the regions are in bounds, ordered and disjoint. */
  lemma FallbackRegionsOrdered(s: string)
    requires |s| > 102
    ensures var d := IdentifyFallback(s);
      "CDR1" in d && "CDR2" in d && "CDR3" in d &&
      0 <= d["CDR1"].start <= d["CDR1"].end < d["CDR2"].start <= d["CDR2"].end <
        d["CDR3"].start <= d["CDR3"].end < |s| &&
      d["CDR1"].sub == s[26..36] && d["CDR2"].sub == s[49..66] && d["CDR3"].sub == s[94..103]
  {
    FallbackReportEntries(s, CdrNames);
  }

  /** On a short sequence the clamped end can fall before the start: CDR2 of a 40-residue chain. */
  lemma ShortSequenceInvertedRegion(s: string)
    requires |s| == 40
    ensures "CDR2" in IdentifyFallback(s) && IdentifyFallback(s)["CDR2"] == CdrRegion(49, 39, [])
  {
    FallbackReportEntries(s, CdrNames);
  }

  /** The fallback report loop over the offset table. */
  method IdentifyCdrsFallback(s: string) returns (d: map<string, CdrRegion>)
    ensures d == IdentifyFallback(s)
  {
    d := map[];
    var i := 0;
    while i < |CdrNames|
      invariant 0 <= i <= |CdrNames|
      invariant d == FallbackReport(s, CdrNames[..i])
    {
      var name := CdrNames[i];
      var span := ImgtTable[name];
      if span.end < |s| {
        d := d[name := CdrRegion(span.start, span.end, s[span.start..span.end + 1])];
      } else {
        var actualEnd := Min(span.end, |s| - 1);
        d := d[name := CdrRegion(span.start, actualEnd, Slice(s, span.start, actualEnd + 1))];
      }
      assert CdrNames[..i + 1][..i] == CdrNames[..i];
      i := i + 1;
    }
    assert CdrNames[..i] == CdrNames;
  }

  /** The report entry for one reported substring: its first occurrence, if it is non-empty and found. */
  function LocateRegion(s: string, cdr: Option<string>): Option<CdrRegion>
  {
    match cdr
    case None => None
    case Some(sub) =>
      if sub == [] then None
      else
        var start := Find(s, sub);
        if start == -1 then None else Some(CdrRegion(start, start + |sub| - 1, sub))
  }

  /** The dictionary the numbering-based loop fills: an entry only for a located substring. */
  function AbnumberReport(s: string, n: Numbering, names: seq<string>): map<string, CdrRegion>
  {
    if names == [] then map[]
    else
      var name := names[|names| - 1];
      var d := AbnumberReport(s, n, names[..|names| - 1]);
      match LocateRegion(s, NumberedCdr(n, name))
      case None => d
      case Some(region) => d[name := region]
  }

  lemma {:induction false} AbnumberReportEntries(s: string, n: Numbering, names: seq<string>)
    ensures forall name :: name in AbnumberReport(s, n, names) <==>
      name in names && LocateRegion(s, NumberedCdr(n, name)).Some?
    ensures forall name :: name in AbnumberReport(s, n, names) ==>
      AbnumberReport(s, n, names)[name] == LocateRegion(s, NumberedCdr(n, name)).value
  {
    if names != [] {
      var init := names[..|names| - 1];
      AbnumberReportEntries(s, n, init);
      assert names == init + [names[|names| - 1]];
    }
  }

  function IdentifyAbnumber(s: string, n: Numbering): map<string, CdrRegion>
  {
    AbnumberReport(s, n, CdrNames)
  }

  /**
   * The numbering-based report holds exactly the CDRs whose reported
   * substring is non-empty and occurs in the sequence; each entry is that
   * substring's first occurrence, in bounds.
   */
  lemma AbnumberRegionsSpec(s: string, n: Numbering)
    ensures forall name :: name in IdentifyAbnumber(s, n) <==>
      name in ImgtTable && NumberedCdr(n, name).Some? && NumberedCdr(n, name).value != [] &&
      exists j :: OccursAt(s, NumberedCdr(n, name).value, j)
    ensures forall name :: name in IdentifyAbnumber(s, n) ==>
      var r := IdentifyAbnumber(s, n)[name];
      NumberedCdr(n, name) == Some(r.sub) &&
      0 <= r.start <= r.end < |s| && s[r.start..r.end + 1] == r.sub &&
      forall j :: 0 <= j < r.start ==> !OccursAt(s, r.sub, j)
  {
    AbnumberReportEntries(s, n, CdrNames);
    assert forall name :: name in CdrNames <==> name in ImgtTable;
    forall name | name in ImgtTable && NumberedCdr(n, name).Some? && NumberedCdr(n, name).value != [] &&
      exists j :: OccursAt(s, NumberedCdr(n, name).value, j)
      ensures name in IdentifyAbnumber(s, n)
    {
      var j :| OccursAt(s, NumberedCdr(n, name).value, j);
    }
  }

  /** The numbering-based report loop. */
  method IdentifyCdrsAbnumber(s: string, n: Numbering) returns (d: map<string, CdrRegion>)
    ensures d == IdentifyAbnumber(s, n)
  {
    d := map[];
    var i := 0;
    while i < |CdrNames|
      invariant 0 <= i <= |CdrNames|
      invariant d == AbnumberReport(s, n, CdrNames[..i])
    {
      var name := CdrNames[i];
      var cdrSeq := NumberedCdr(n, name);
      if cdrSeq.Some? && cdrSeq.value != [] {
        var startIdx := Find(s, cdrSeq.value);
        if startIdx != -1 {
          var endIdx := startIdx + |cdrSeq.value| - 1;
          d := d[name := CdrRegion(startIdx, endIdx, cdrSeq.value)];
        }
      }
      assert CdrNames[..i + 1][..i] == CdrNames[..i];
      i := i + 1;
    }
    assert CdrNames[..i] == CdrNames;
  }

  /** The report with its fallback: numbering-based when a numbering is available, the offset table otherwise. */
  function IdentifyCdrs(s: string, numbering: Option<Numbering>): map<string, CdrRegion>
  {
    match numbering
    case None => IdentifyFallback(s)
    case Some(n) => IdentifyAbnumber(s, n)
  }

  method IdentifyNanobodyCdrs(s: string, numbering: Option<Numbering>) returns (d: map<string, CdrRegion>)
    ensures d == IdentifyCdrs(s, numbering)
    ensures numbering.None? ==> d.Keys == {"CDR1", "CDR2", "CDR3"}
  {
    if numbering.None? {
      d := IdentifyCdrsFallback(s);
      FallbackRegionsSpec(s);
    } else {
      d := IdentifyCdrsAbnumber(s, numbering.value);
    }
  }
}
