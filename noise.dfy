/** The line filter in front of the block scanner: `is_noise` and the
    comprehension that turns the collected output into the scanner's lines. */
module Noise {
  import opened Text

  /** NOISE_PATTERNS: output of known benign failures on the remote side. */
  const NoisePatterns: seq<string> :=
    ["cd: no such file or directory", "Exception ignored in:", "BrokenPipeError:"]

  /** is_noise: a line is noise exactly when it is whitespace only, or one of
      the noise patterns occurs somewhere in it. */
  predicate IsNoise(line: string)
    ensures IsNoise(line) <==>
      AllSpace(line) ||
      exists k: nat, i: nat :: k < |NoisePatterns| && OccursAt(line, NoisePatterns[k], i)
  {
    ContainsIff(line, NoisePatterns[0]);
    ContainsIff(line, NoisePatterns[1]);
    ContainsIff(line, NoisePatterns[2]);
    (exists k | 0 <= k < |NoisePatterns| :: Contains(line, NoisePatterns[k])) || Strip(line) == []
  }

  /** Removing trailing line feeds from a data line leaves a data line. */
  lemma DataSurvivesNewlineTrim(line: string)
    requires !IsNoise(line)
    ensures !IsNoise(TrimRightChar(line, '\n'))
  {
    var r := TrimRightChar(line, '\n');
    forall k | 0 <= k < |NoisePatterns|
      ensures !Contains(r, NoisePatterns[k])
    {
      if Contains(r, NoisePatterns[k]) {
        ContainsOfPrefix(line, |r|, NoisePatterns[k]);
      }
    }
    var i :| 0 <= i < |line| && !IsSpace(line[i]);
    assert r[i] == line[i];
  }

  /** The scanner's input, `[ln.rstrip("\n") for ln in lines if not is_noise(ln)]`:
      never longer than its input, and no line of it is noise. */
  function Filtered(lines: seq<string>): (raw: seq<string>)
    ensures |raw| <= |lines|
    ensures forall j | 0 <= j < |raw| :: !IsNoise(raw[j])
  {
    if lines == [] then []
    else
      var rest := Filtered(lines[1..]);
      if IsNoise(lines[0]) then rest
      else
        DataSurvivesNewlineTrim(lines[0]);
        [TrimRightChar(lines[0], '\n')] + rest
  }

  /** Filtering works line by line and keeps the order of the lines. */
  lemma {:induction false} FilteredAppend(a: seq<string>, b: seq<string>)
    ensures Filtered(a + b) == Filtered(a) + Filtered(b)
  {
    if a != [] {
      assert (a + b)[1..] == a[1..] + b;
      FilteredAppend(a[1..], b);
    } else {
      assert a + b == b;
    }
  }

  /** A single line passes, trimmed of its line feeds, exactly when it is not noise. */
  lemma FilteredOne(line: string)
    ensures Filtered([line]) == if IsNoise(line) then [] else [TrimRightChar(line, '\n')]
  {
    assert [line][1..] == [];
  }

  /** Every data line reaches the scanner. */
  lemma {:induction false} FilteredKeepsData(lines: seq<string>, i: nat)
    requires i < |lines| && !IsNoise(lines[i])
    ensures TrimRightChar(lines[i], '\n') in Filtered(lines)
  {
    var rest := Filtered(lines[1..]);
    if i > 0 {
      FilteredKeepsData(lines[1..], i - 1);
      assert Filtered(lines) == rest || Filtered(lines) == [TrimRightChar(lines[0], '\n')] + rest;
    } else {
      assert Filtered(lines) == [TrimRightChar(lines[0], '\n')] + rest;
    }
  }
}
