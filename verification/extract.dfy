/** The attribute scanner of `rip` (src/main.rs:94-111 and 119-136): every
    occurrence of a marker is found with `match_indices`, reading starts a
    fixed distance past it (skipping the assumed opening quote), the first
    character is always taken and reading continues up to the next `"`.
    Text is ASCII, so a byte offset and a character index coincide. */
module Extract {
  import opened Wrappers

  const HrefMarker: string := "href="
  const SrcMarker: string := "src="
  /** `href=` plus the opening quote. */
  const HrefOffset: nat := 6
  /** `src=` plus the opening quote. */
  const SrcOffset: nat := 5

  predicate OccursAt(text: string, pat: string, i: nat)
  {
    i + |pat| <= |text| && text[i..i + |pat|] == pat
  }

  /** The first character of the marker does not occur again inside it, so
      two occurrences can never overlap. */
  predicate FirstCharUnique(pat: string)
  {
    |pat| > 0 && forall d :: 0 < d < |pat| ==> pat[d] != pat[0]
  }

  predicate Increasing(xs: seq<nat>)
  {
    forall i, j :: 0 <= i < j < |xs| ==> xs[i] < xs[j]
  }

  /** `str::match_indices`: a left-to-right search that resumes after each
      match, so matches never overlap. */
  function MatchIndices(text: string, pat: string, from: nat): (r: seq<nat>)
    requires |pat| > 0
    decreases |text| - from
    ensures forall k :: 0 <= k < |r| ==> from <= r[k] && OccursAt(text, pat, r[k])
    ensures Increasing(r)
  {
    if from + |pat| > |text| then []
    else if text[from..from + |pat|] == pat then [from] + MatchIndices(text, pat, from + |pat|)
    else MatchIndices(text, pat, from + 1)
  }

  /** For a marker that cannot overlap itself, the non-overlapping search
      still reports every occurrence at or after `from`. */
  lemma {:induction false} MatchIndicesComplete(text: string, pat: string, from: nat, i: nat)
    requires FirstCharUnique(pat)
    requires from <= i && OccursAt(text, pat, i)
    decreases |text| - from
    ensures i in MatchIndices(text, pat, from)
  {
    if from == i {
    } else if text[from..from + |pat|] == pat {
      if i < from + |pat| {
        OverlapRepeatsFirstChar(text, pat, from, i);
        assert false;
      }
      MatchIndicesComplete(text, pat, from + |pat|, i);
    } else {
      MatchIndicesComplete(text, pat, from + 1, i);
    }
  }

  /** Two overlapping occurrences force the marker's first character to
      reappear inside it. */
  lemma OverlapRepeatsFirstChar(text: string, pat: string, a: nat, b: nat)
    requires OccursAt(text, pat, a) && OccursAt(text, pat, b)
    requires a < b < a + |pat|
    ensures pat[b - a] == pat[0]
  {
    assert text[b] == text[a..a + |pat|][b - a];
    assert text[b] == text[b..b + |pat|][0];
  }

  /** `match_indices` reports exactly the occurrences of a marker of `rip`. */
  lemma MatchIndicesExact(text: string, pat: string, i: nat)
    requires pat == HrefMarker || pat == SrcMarker
    ensures i in MatchIndices(text, pat, 0) <==> OccursAt(text, pat, i)
  {
    if OccursAt(text, pat, i) {
      MatchIndicesComplete(text, pat, 0, i);
    }
  }

  /** The first `"` at or after `k`, if any. */
  function FirstQuote(text: string, k: nat): (r: Option<nat>)
    decreases |text| - k
    ensures r.Some? ==> k <= r.value < |text| && text[r.value] == '"'
    ensures r.Some? ==> forall m :: k <= m < r.value ==> text[m] != '"'
    ensures r.None? ==> forall m :: k <= m < |text| ==> text[m] != '"'
  {
    if k >= |text| then None
    else if text[k] == '"' then Some(k)
    else FirstQuote(text, k + 1)
  }

  /** The candidate read from `start`: `text[start..j]` for the first quote
      `j` strictly after `start`. None where an `unwrap` of `rip` would
      panic: `start` past the end, or no closing quote. */
  function ScanAt(text: string, start: nat): (r: Option<string>)
    ensures r.Some? <==> start < |text| && exists j :: start < j < |text| && text[j] == '"'
    ensures r.Some? ==> exists j :: start < j < |text| && text[j] == '"' && r.value == text[start..j]
                                    && forall m :: start < m < j ==> text[m] != '"'
    ensures r.Some? ==> |r.value| > 0 && r.value[0] == text[start]
  {
    if start >= |text| then None
    else match FirstQuote(text, start + 1)
      case None => None
      case Some(j) => Some(text[start..j])
  }

  /** The accumulation loop of src/main.rs:97-109, step by step: push the
      current character, advance, stop at a quote. */
  method ReadAttribute(text: string, start: nat) returns (r: Option<string>)
    ensures r.None? <==> start >= |text| || forall m :: start < m < |text| ==> text[m] != '"'
    ensures r.Some? ==> exists j :: start < j < |text| && text[j] == '"' && r.value == text[start..j]
                                    && forall m :: start < m < j ==> text[m] != '"'
    ensures r == ScanAt(text, start)
  {
    if start >= |text| {
      return None;
    }
    var position := start;
    var current := text[position];
    var acc := "";
    while true
      invariant start <= position < |text|
      invariant current == text[position]
      invariant acc == text[start..position]
      invariant forall m :: start < m <= position ==> text[m] != '"'
      decreases |text| - position
    {
      acc := acc + [current];
      position := position + 1;
      if position >= |text| {
        return None;
      }
      current := text[position];
      if current == '"' {
        return Some(acc);
      }
    }
  }

  /** The candidates read at `idx[k] + offset`, dropping every unterminated
      match instead of panicking. */
  function Collect(text: string, idx: seq<nat>, offset: nat): (r: seq<string>)
    ensures |r| <= |idx|
    ensures forall c :: c in r <==> exists i :: i in idx && ScanAt(text, i + offset) == Some(c)
  {
    if idx == [] then []
    else
      var rest := Collect(text, idx[1..], offset);
      assert forall c :: (exists i :: i in idx && ScanAt(text, i + offset) == Some(c))
                         <==> ScanAt(text, idx[0] + offset) == Some(c)
                              || exists i :: i in idx[1..] && ScanAt(text, i + offset) == Some(c) by {
        forall c {
          ReadsToSplit(text, idx, offset, c);
        }
      }
      match ScanAt(text, idx[0] + offset)
      case None => rest
      case Some(c) => [c] + rest
  }

  /** Some index of `idx` reads to `c` iff the first does or one of the rest does. */
  lemma ReadsToSplit(text: string, idx: seq<nat>, offset: nat, c: string)
    requires idx != []
    ensures (exists i :: i in idx && ScanAt(text, i + offset) == Some(c))
            <==> ScanAt(text, idx[0] + offset) == Some(c)
                 || exists i :: i in idx[1..] && ScanAt(text, i + offset) == Some(c)
  {
    if i :| i in idx && ScanAt(text, i + offset) == Some(c) {
      if i != idx[0] {
        assert i in idx[1..];
      }
    }
    if i :| i in idx[1..] && ScanAt(text, i + offset) == Some(c) {
      assert i in idx;
    }
    assert idx[0] in idx;
  }

  /** The candidate list for one marker, unterminated matches discarded. */
  function Candidates(text: string, marker: string, offset: nat): (r: seq<string>)
    requires |marker| > 0
    ensures forall c :: c in r ==> exists i: nat :: OccursAt(text, marker, i) && ScanAt(text, i + offset) == Some(c)
  {
    Collect(text, MatchIndices(text, marker, 0), offset)
  }

  /** A string is a candidate exactly when some occurrence of the marker reads
      to it; in particular no candidate comes from an unterminated match. */
  lemma CandidatesExact(text: string, marker: string, offset: nat, c: string)
    requires marker == HrefMarker || marker == SrcMarker
    ensures c in Candidates(text, marker, offset)
            <==> exists i: nat :: OccursAt(text, marker, i) && ScanAt(text, i + offset) == Some(c)
  {
    if i: nat :| OccursAt(text, marker, i) && ScanAt(text, i + offset) == Some(c) {
      MatchIndicesExact(text, marker, i);
    }
  }

  /** The same scan as written: one unterminated match makes the `unwrap`
      panic, which aborts the whole program (None). */
  function CollectAsWritten(text: string, idx: seq<nat>, offset: nat): (r: Option<seq<string>>)
    ensures r.Some? <==> forall k :: 0 <= k < |idx| ==> ScanAt(text, idx[k] + offset).Some?
    ensures r.Some? ==> |r.value| == |idx|
    ensures r.Some? ==> forall k :: 0 <= k < |idx| ==> ScanAt(text, idx[k] + offset) == Some(r.value[k])
  {
    if idx == [] then Some([])
    else match ScanAt(text, idx[0] + offset)
      case None => None
      case Some(c) =>
        match CollectAsWritten(text, idx[1..], offset)
        case None => None
        case Some(rest) => Some([c] + rest)
  }

  /** The scan of one marker as `rip` runs it. When it does not panic, it
      yields one candidate per match, and those are the corrected candidates. */
  function ExtractAsWritten(text: string, marker: string, offset: nat): (r: Option<seq<string>>)
    requires |marker| > 0
    ensures r.Some? ==> |r.value| == |MatchIndices(text, marker, 0)|
    ensures r.Some? ==> r.value == Candidates(text, marker, offset)
  {
    var idx := MatchIndices(text, marker, 0);
    if CollectAsWritten(text, idx, offset).Some? then
      AsWrittenAgrees(text, idx, offset);
      CollectAsWritten(text, idx, offset)
    else None
  }

  /** The scan as written panics exactly when some occurrence of the marker
      is too close to the end of the text or has no closing quote. */
  lemma AsWrittenPanicsExactly(text: string, marker: string, offset: nat)
    requires marker == HrefMarker || marker == SrcMarker
    ensures ExtractAsWritten(text, marker, offset).None?
            <==> exists i: nat :: OccursAt(text, marker, i) && ScanAt(text, i + offset).None?
  {
    var idx := MatchIndices(text, marker, 0);
    CollectAsWrittenPanics(text, idx, offset);
    assert ExtractAsWritten(text, marker, offset).None?
           <==> exists i :: i in idx && ScanAt(text, i + offset).None?;
    if i: nat :| OccursAt(text, marker, i) && ScanAt(text, i + offset).None? {
      MatchIndicesExact(text, marker, i);
    }
    if i :| i in idx && ScanAt(text, i + offset).None? {
      MatchIndicesExact(text, marker, i);
    }
  }

  /** The scan as written panics exactly when one of its indices does. */
  lemma CollectAsWrittenPanics(text: string, idx: seq<nat>, offset: nat)
    ensures CollectAsWritten(text, idx, offset).None?
            <==> exists i :: i in idx && ScanAt(text, i + offset).None?
  {
    if i :| i in idx && ScanAt(text, i + offset).None? {
      var k :| 0 <= k < |idx| && idx[k] == i;
    }
    if CollectAsWritten(text, idx, offset).None? {
      var k :| 0 <= k < |idx| && ScanAt(text, idx[k] + offset).None?;
      assert idx[k] in idx;
    }
  }

  /** When `rip` does not panic it produces exactly the corrected list. */
  lemma {:induction false} AsWrittenAgrees(text: string, idx: seq<nat>, offset: nat)
    requires CollectAsWritten(text, idx, offset).Some?
    ensures CollectAsWritten(text, idx, offset) == Some(Collect(text, idx, offset))
  {
    if idx != [] {
      AsWrittenAgrees(text, idx[1..], offset);
    }
  }

  /** The search moves over a stretch of text that never shows the
      marker's first character without reporting anything. */
  lemma {:induction false} MatchIndicesSkip(text: string, pat: string, from: nat, to: nat)
    requires |pat| > 0 && from <= to
    requires forall k :: from <= k < to && k < |text| ==> text[k] != pat[0]
    ensures MatchIndices(text, pat, from) == MatchIndices(text, pat, to)
    decreases (to as int) - (from as int)
  {
    if from < to && from + |pat| <= |text| {
      assert text[from..from + |pat|][0] != pat[0];
      MatchIndicesSkip(text, pat, from + 1, to);
    }
  }

  /** A page whose second link is cut off before its closing quote. */
  const CutOffPage: string := "href=\"/x\"href=\"/y"

  /** As written the scan of `CutOffPage` panics, losing the earlier
      well-formed link with it; corrected, the well-formed link survives. */
  lemma UnterminatedLinkPanics()
    ensures ExtractAsWritten(CutOffPage, HrefMarker, HrefOffset) == None
    ensures Candidates(CutOffPage, HrefMarker, HrefOffset) == ["/x"]
  {
    var text := CutOffPage;
    assert |text| == 17;
    assert MatchIndices(text, HrefMarker, 14) == [];
    assert text[9..14] == HrefMarker;
    assert MatchIndices(text, HrefMarker, 9) == [9];
    assert text[5] != 'h' && text[6] != 'h' && text[7] != 'h' && text[8] != 'h';
    MatchIndicesSkip(text, HrefMarker, 5, 9);
    assert text[0..5] == HrefMarker;
    assert MatchIndices(text, HrefMarker, 0) == [0, 9];
    assert FirstQuote(text, 7) == Some(8);
    assert text[6..8] == "/x";
    assert ScanAt(text, 6) == Some("/x");
    assert FirstQuote(text, 16) == None;
    assert ScanAt(text, 15) == None;
    assert [0, 9][1..] == [9] && [9][1..] == [];
    assert Collect(text, [9], 6) == [];
    assert Collect(text, [0, 9], 6) == ["/x"];
  }
}
