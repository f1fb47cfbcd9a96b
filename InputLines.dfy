/**
 * The job list of `src/main.rs`: the text file is read line by line, every
 * line is trimmed, blank lines are dropped, and the survivors are numbered in
 * file order. Those numbers are the positions the reorder loop restores.
 */
module InputLines {

  /** `char::is_whitespace`: the characters with the Unicode White_Space property. */
  predicate IsWhitespace(c: char)
  {
    || ('\t' <= c <= '\r')
    || c == ' '
    || c == '\U{0085}'
    || c == '\U{00A0}'
    || c == '\U{1680}'
    || ('\U{2000}' <= c <= '\U{200A}')
    || c == '\U{2028}'
    || c == '\U{2029}'
    || c == '\U{202F}'
    || c == '\U{205F}'
    || c == '\U{3000}'
  }

  predicate AllWhitespace(s: string)
  {
    forall i :: 0 <= i < |s| ==> IsWhitespace(s[i])
  }

  /** The number of whitespace characters `str::trim` removes from the front. */
  function LeadingSpace(s: string): (k: nat)
    ensures k <= |s|
  {
    if s != [] && IsWhitespace(s[0]) then 1 + LeadingSpace(s[1..]) else 0
  }

  /** The number of whitespace characters `str::trim` removes from the back. */
  function TrailingSpace(s: string): (k: nat)
    ensures k <= |s|
  {
    if s != [] && IsWhitespace(s[|s| - 1]) then 1 + TrailingSpace(s[..|s| - 1]) else 0
  }

  /** `LeadingSpace` counts the longest whitespace prefix. */
  lemma {:induction false} LeadingSpaceSpec(s: string)
    ensures AllWhitespace(s[..LeadingSpace(s)])
    ensures LeadingSpace(s) < |s| ==> !IsWhitespace(s[LeadingSpace(s)])
  {
    if s != [] && IsWhitespace(s[0]) {
      LeadingSpaceSpec(s[1..]);
      assert s[..LeadingSpace(s)] == [s[0]] + s[1..][..LeadingSpace(s[1..])];
    }
  }

  /** `TrailingSpace` counts the longest whitespace suffix. */
  lemma {:induction false} TrailingSpaceSpec(s: string)
    ensures AllWhitespace(s[|s| - TrailingSpace(s)..])
    ensures TrailingSpace(s) < |s| ==> !IsWhitespace(s[|s| - 1 - TrailingSpace(s)])
  {
    if s != [] && IsWhitespace(s[|s| - 1]) {
      var u := s[..|s| - 1];
      TrailingSpaceSpec(u);
      assert s[|s| - TrailingSpace(s)..] == u[|u| - TrailingSpace(u)..] + [s[|s| - 1]];
    }
  }

  /** `str::trim`: strip leading, then trailing whitespace. */
  function Trim(s: string): (t: string)
    ensures |t| <= |s|
  {
    var t := s[LeadingSpace(s)..];
    t[..|t| - TrailingSpace(t)]
  }

  /**
   * What `str::trim` promises: the result is a slice of the input, and
   * everything cut off on either side is whitespace.
   */
  lemma TrimSpec(s: string)
    ensures exists a, b ::
              0 <= a <= b <= |s| && Trim(s) == s[a..b] && AllWhitespace(s[..a]) && AllWhitespace(s[b..])
  {
    var a := LeadingSpace(s);
    var t := s[a..];
    var c := |t| - TrailingSpace(t);
    LeadingSpaceSpec(s);
    TrailingSpaceSpec(t);
    assert Trim(s) == t[..c] == s[a..a + c];
    assert s[a + c..] == t[c..];
  }

  /** ... and the result neither starts nor ends with whitespace. */
  lemma TrimEnds(s: string)
    ensures Trim(s) != [] ==> !IsWhitespace(Trim(s)[0]) && !IsWhitespace(Trim(s)[|Trim(s)| - 1])
  {
    var a := LeadingSpace(s);
    var t := s[a..];
    LeadingSpaceSpec(s);
    TrailingSpaceSpec(t);
    if Trim(s) != [] {
      assert Trim(s)[0] == t[0];
    }
  }

  /** A line trims to nothing exactly when it is blank. */
  lemma TrimBlank(s: string)
    ensures Trim(s) == [] <==> AllWhitespace(s)
  {
    var a := LeadingSpace(s);
    var t := s[a..];
    if Trim(s) == [] {
      assert AllWhitespace(t) by {
        TrailingSpaceSpec(t);
        assert t[|t| - TrailingSpace(t)..] == t;
      }
      assert a == |s| by {
        LeadingSpaceSpec(s);
      }
      assert AllWhitespace(s) by {
        LeadingSpaceSpec(s);
        assert s[..a] == s;
      }
    } else {
      assert a < |s|;
      assert !IsWhitespace(s[a]) by {
        LeadingSpaceSpec(s);
      }
    }
  }

  /** Trimming twice trims nothing more. */
  lemma TrimIdempotent(s: string)
    ensures Trim(Trim(s)) == Trim(s)
  {
    var t := Trim(s);
    TrimEnds(s);
    if t != [] {
      assert LeadingSpace(t) == 0;
      assert TrailingSpace(t) == 0;
      assert t[0..] == t;
    }
  }

  /** The index of the first `'\n'` in `text`, or `|text|` when there is none. */
  function LineEnd(text: string): (i: nat)
    ensures i <= |text|
    ensures forall j :: 0 <= j < i ==> text[j] != '\n'
    ensures i < |text| ==> text[i] == '\n'
  {
    if text == [] || text[0] == '\n' then 0 else 1 + LineEnd(text[1..])
  }

  /** A line that was ended by `"\r\n"` loses the `'\r'` too. */
  function DropCr(line: string): string
  {
    if line != [] && line[|line| - 1] == '\r' then line[..|line| - 1] else line
  }

  /**
   * `BufRead::lines`: split at each `'\n'`, dropping the `'\n'` and a `'\r'`
   * just before it; a final line without `'\n'` is kept as it is, and text
   * ending in `'\n'` has no empty line after it.
   */
  function Lines(text: string): (ls: seq<string>)
    ensures |ls| <= |text|
    ensures ls == [] <==> text == []
    decreases |text|
  {
    if text == [] then []
    else
      var i := LineEnd(text);
      if i == |text| then [text] else [DropCr(text[..i])] + Lines(text[i + 1..])
  }

  /** The lines joined back with `'\n'` between them. */
  function Unlines(lines: seq<string>): string
  {
    if lines == [] then []
    else if |lines| == 1 then lines[0]
    else lines[0] + "\n" + Unlines(lines[1..])
  }

  lemma UnlinesCons(line: string, lines: seq<string>)
    requires lines != []
    ensures Unlines([line] + lines) == line + "\n" + Unlines(lines)
  {
    assert ([line] + lines)[1..] == lines;
  }

  /** The text without one final `'\n'`, if it has one. */
  function Chomp(text: string): string
  {
    if text != [] && text[|text| - 1] == '\n' then text[..|text| - 1] else text
  }

  /**
   * On text without carriage returns, splitting loses nothing but a final
   * newline: joining the lines with `'\n'` gives back the text without it.
   */
  lemma {:induction false} LinesRoundTrip(text: string)
    requires forall j :: 0 <= j < |text| ==> text[j] != '\r'
    ensures Unlines(Lines(text)) == Chomp(text)
    decreases |text|
  {
    if text != [] {
      var i := LineEnd(text);
      if i < |text| {
        var line, rest := text[..i], text[i + 1..];
        assert DropCr(line) == line by {
          if line != [] {
            assert line[|line| - 1] == text[i - 1];
          }
        }
        assert Lines(text) == [line] + Lines(rest);
        assert text == line + "\n" + rest;
        if rest == [] {
          assert Lines(rest) == [];
          assert Chomp(text) == line;
        } else {
          LinesRoundTrip(rest);
          assert Lines(rest) != [];
          UnlinesCons(line, Lines(rest));
          ChompAfter(line + "\n", rest);
        }
      }
    }
  }

  lemma ChompAfter(head: string, rest: string)
    requires rest != []
    ensures Chomp(head + rest) == head + Chomp(rest)
  {
    if rest[|rest| - 1] == '\n' {
      assert (head + rest)[..|head + rest| - 1] == head + rest[..|rest| - 1];
    }
  }

  /** No line holds a newline. */
  lemma {:induction false} LinesHaveNoNewline(text: string)
    ensures forall k, j :: 0 <= k < |Lines(text)| && 0 <= j < |Lines(text)[k]| ==> Lines(text)[k][j] != '\n'
    decreases |text|
  {
    if text != [] {
      var i := LineEnd(text);
      if i < |text| {
        LinesHaveNoNewline(text[i + 1..]);
      }
    }
  }

  /** The `map(trim)` step. */
  function Trimmed(lines: seq<string>): (ts: seq<string>)
    ensures |ts| == |lines|
  {
    seq(|lines|, i requires 0 <= i < |lines| => Trim(lines[i]))
  }

  /** The `filter(|l| !l.is_empty())` step, in line order. */
  function NonEmpty(lines: seq<string>): (ne: seq<string>)
    ensures |ne| <= |lines|
  {
    if lines == [] then []
    else (if lines[0] == [] then [] else [lines[0]]) + NonEmpty(lines[1..])
  }

  /** The `map(trim)`/`filter` chain: every line trimmed, blank ones dropped. */
  function Kept(lines: seq<string>): (kept: seq<string>)
    ensures |kept| <= |lines|
  {
    NonEmpty(Trimmed(lines))
  }

  /** `total_lines`: the chain applied to the lines of the file. */
  function TotalLines(text: string): (total: seq<string>)
    ensures |total| <= |text|
  {
    Kept(Lines(text))
  }

  /** The line numbers, counted from `base`, of the lines `NonEmpty` keeps. */
  function KeptPositions(lines: seq<string>, base: nat): seq<nat>
  {
    if lines == [] then []
    else (if lines[0] == [] then [] else [base]) + KeptPositions(lines[1..], base + 1)
  }

  lemma {:induction false} KeptLength(lines: seq<string>, base: nat)
    ensures |KeptPositions(lines, base)| == |NonEmpty(lines)|
  {
    if lines != [] {
      KeptLength(lines[1..], base + 1);
    }
  }

  lemma {:induction false} KeptBounds(lines: seq<string>, base: nat)
    ensures forall j :: 0 <= j < |KeptPositions(lines, base)| ==>
      base <= KeptPositions(lines, base)[j] < base + |lines|
  {
    if lines != [] {
      KeptBounds(lines[1..], base + 1);
    }
  }

  lemma {:induction false} KeptIncreasing(lines: seq<string>, base: nat)
    ensures forall j, k :: 0 <= j < k < |KeptPositions(lines, base)| ==>
      KeptPositions(lines, base)[j] < KeptPositions(lines, base)[k]
  {
    if lines != [] {
      KeptIncreasing(lines[1..], base + 1);
      KeptBounds(lines[1..], base + 1);
    }
  }

  lemma {:induction false} KeptAt(lines: seq<string>, base: nat, j: nat)
    requires j < |NonEmpty(lines)|
    ensures |KeptPositions(lines, base)| == |NonEmpty(lines)|
    ensures base <= KeptPositions(lines, base)[j] < base + |lines|
    ensures NonEmpty(lines)[j] == lines[KeptPositions(lines, base)[j] - base]
    ensures NonEmpty(lines)[j] != []
  {
    KeptLength(lines, base);
    KeptLength(lines[1..], base + 1);
    var d := if lines[0] == [] then 0 else 1;
    if j >= d {
      KeptAt(lines[1..], base + 1, j - d);
      assert KeptPositions(lines, base)[j] == KeptPositions(lines[1..], base + 1)[j - d];
      assert NonEmpty(lines)[j] == NonEmpty(lines[1..])[j - d];
    }
  }

  /** Every line `NonEmpty` skips is empty. */
  lemma {:induction false} KeptSkipsEmpty(lines: seq<string>, base: nat)
    ensures forall i :: 0 <= i < |lines| && base + i !in KeptPositions(lines, base) ==> lines[i] == []
  {
    if lines != [] {
      KeptSkipsEmpty(lines[1..], base + 1);
      var ps, tail := KeptPositions(lines, base), KeptPositions(lines[1..], base + 1);
      assert ps[|ps| - |tail|..] == tail;
      forall i | 0 < i < |lines| && base + i !in ps ensures lines[i] == [] {
        assert base + 1 + (i - 1) !in tail;
        assert lines[1..][i - 1] == lines[i];
      }
    }
  }

  /**
   * The chain keeps the trimmed lines, in order: entry `j` is the trimmed line
   * at position `j` of `KeptPositions`, and those positions strictly increase.
   */
  lemma KeptEntries(lines: seq<string>)
    ensures |KeptPositions(Trimmed(lines), 0)| == |Kept(lines)|
    ensures forall j :: 0 <= j < |Kept(lines)| ==>
      && KeptPositions(Trimmed(lines), 0)[j] < |lines|
      && Kept(lines)[j] == Trim(lines[KeptPositions(Trimmed(lines), 0)[j]])
    ensures forall j, k :: 0 <= j < k < |Kept(lines)| ==>
      KeptPositions(Trimmed(lines), 0)[j] < KeptPositions(Trimmed(lines), 0)[k]
  {
    var ts := Trimmed(lines);
    var ps := KeptPositions(ts, 0);
    KeptLength(ts, 0);
    forall j | 0 <= j < |NonEmpty(ts)|
      ensures ps[j] < |lines| && NonEmpty(ts)[j] == Trim(lines[ps[j]])
    {
      KeptAt(ts, 0, j);
    }
    KeptIncreasing(ts, 0);
  }

  /** The chain drops only blank lines. */
  lemma KeptSkipsBlank(lines: seq<string>)
    ensures forall i :: 0 <= i < |lines| && i !in KeptPositions(Trimmed(lines), 0) ==> AllWhitespace(lines[i])
  {
    var ts := Trimmed(lines);
    KeptSkipsEmpty(ts, 0);
    forall i | 0 <= i < |lines| && i !in KeptPositions(ts, 0) ensures AllWhitespace(lines[i]) {
      assert 0 + i == i;
      assert ts[i] == Trim(lines[i]) == [];
      TrimBlank(lines[i]);
    }
  }

  /** Every entry the chain keeps is non-empty and already trimmed. */
  lemma KeptAreTrimmed(lines: seq<string>)
    ensures forall j :: 0 <= j < |Kept(lines)| ==> Kept(lines)[j] != [] && Trim(Kept(lines)[j]) == Kept(lines)[j]
  {
    var ts := Trimmed(lines);
    forall j | 0 <= j < |NonEmpty(ts)|
      ensures NonEmpty(ts)[j] != [] && Trim(NonEmpty(ts)[j]) == NonEmpty(ts)[j]
    {
      KeptAt(ts, 0, j);
      var i := KeptPositions(ts, 0)[j];
      assert NonEmpty(ts)[j] == Trim(lines[i]);
      TrimIdempotent(lines[i]);
    }
  }

  /** A job: its position from `enumerate` and its text. */
  datatype Job = Job(position: nat, text: string)

  /** `total_lines.iter().enumerate()`. */
  function Jobs(lines: seq<string>): (jobs: seq<Job>)
    ensures |jobs| == |lines|
    ensures forall i :: 0 <= i < |jobs| ==> jobs[i].position == i && jobs[i].text == lines[i]
  {
    seq(|lines|, i requires 0 <= i < |lines| => Job(i, lines[i]))
  }

  /**
   * The jobs built from the lines of a file are numbered 0 .. n-1 in order,
   * one per kept line, and none has empty or untrimmed text: the
   * `unreachable!()` guard in the producer can never fire.
   */
  lemma JobsAreDense(lines: seq<string>)
    ensures |Jobs(Kept(lines))| == |Kept(lines)|
    ensures forall i :: 0 <= i < |Jobs(Kept(lines))| ==>
      Jobs(Kept(lines))[i].position == i && Jobs(Kept(lines))[i].text == Kept(lines)[i]
    ensures forall i :: 0 <= i < |Jobs(Kept(lines))| ==>
      Jobs(Kept(lines))[i].text != [] && Trim(Jobs(Kept(lines))[i].text) == Jobs(Kept(lines))[i].text
  {
    KeptAreTrimmed(lines);
  }
}
