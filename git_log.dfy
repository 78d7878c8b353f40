/**
 * `reformat_git_log`: each `<sha>\t<date>\t<author>\t<email>\t<message>` line
 * becomes the first 7 characters of the sha, a run of dots and the message,
 * 80 characters in all for a full sha.
 */
module GitLog {
  import opened Text
  import opened Wrappers

  const LineWidth: nat := 80
  const ShaPrefix: nat := 7

  function Min(a: int, b: int): int {
    if a <= b then a else b
  }

  /** `s.rstrip('\n')`: only trailing newlines are removed. */
  function RStripNewline(s: string): (r: string)
    ensures |r| <= |s| && r == s[..|r|]
    ensures forall k :: |r| <= k < |s| ==> s[k] == '\n'
    ensures |r| > 0 ==> r[|r| - 1] != '\n'
    decreases |s|
  {
    if |s| > 0 && s[|s| - 1] == '\n' then RStripNewline(s[..|s| - 1]) else s
  }

  function Dots(n: nat): (r: string)
    ensures |r| == n
    ensures forall k :: 0 <= k < n ==> r[k] == '.'
  {
    seq(n, _ => '.')
  }

  /**
   * One output line without its '\n'. `None` is the ValueError that
   * `sha, *_, msg = line.split('\t')` raises when the line has no tab.
   * The prefix is the first field cut to 7 characters, the message is the
   * last field cut to 73, and dots fill the space between.
   */
  function FormatLine(line: string): (r: Option<string>)
    ensures var f := Split(RStripNewline(line), '\t');
      && (r.None? <==> |f| < 2)
      && (r.Some? ==>
            var sha := f[0];
            var msg := f[|f| - 1];
            var p := Min(|sha|, ShaPrefix);
            var m := Min(|msg|, LineWidth - ShaPrefix);
            && |r.value| == p + LineWidth - ShaPrefix
            && r.value[..p] == sha[..p]
            && r.value[|r.value| - m..] == msg[..m]
            && (forall k :: p <= k < |r.value| - m ==> r.value[k] == '.'))
  {
    var fields := Split(RStripNewline(line), '\t');
    if |fields| < 2 then None
    else
      var sha := fields[0];
      var prefix := sha[..Min(|sha|, ShaPrefix)];
      var last := fields[|fields| - 1];
      var maxMsgLen := LineWidth - ShaPrefix;
      var msg := if |last| > maxMsgLen then last[..maxMsgLen] else last;
      var dots := LineWidth - ShaPrefix - |msg|;
      var out := prefix + Dots(dots) + msg;
      assert out[|out| - |msg|..] == msg;
      Some(out)
  }

  /** With a sha of at least 7 characters every line is exactly 80 characters wide. */
  lemma FullShaWidth(line: string)
    requires FormatLine(line).Some?
    requires |Split(RStripNewline(line), '\t')[0]| >= ShaPrefix
    ensures |FormatLine(line).value| == LineWidth
  {
  }

  /**
   * What the loop over the input stream writes: the formatted lines, each
   * with its '\n', up to the first line without a tab.
   */
  function Written(lines: seq<string>): seq<string>
    decreases |lines|
  {
    if lines == [] then []
    else
      match FormatLine(lines[0])
      case None => []
      case Some(o) => [o + "\n"] + Written(lines[1..])
  }

  /** The i-th written line is the formatted i-th input line. */
  lemma {:induction false} WrittenAt(lines: seq<string>, i: nat)
    requires i < |Written(lines)|
    ensures |Written(lines)| <= |lines|
    ensures FormatLine(lines[i]).Some? && Written(lines)[i] == FormatLine(lines[i]).value + "\n"
    decreases |lines|
  {
    WrittenLength(lines);
    if i > 0 {
      WrittenAt(lines[1..], i - 1);
    }
  }

  /** One output line per input line, and when fewer are written the next line has no tab. */
  lemma {:induction false} WrittenLength(lines: seq<string>)
    ensures |Written(lines)| <= |lines|
    ensures |Written(lines)| < |lines| ==> FormatLine(lines[|Written(lines)|]).None?
    ensures |Written(lines)| == |lines| <==> forall i :: 0 <= i < |lines| ==> FormatLine(lines[i]).Some?
    decreases |lines|
  {
    if lines != [] {
      WrittenLength(lines[1..]);
      if FormatLine(lines[0]).Some? {
        assert forall i :: 1 <= i < |lines| ==> lines[i] == lines[1..][i - 1];
      }
    }
  }

  /** Reading line `i` either stops the output or appends its formatted form. */
  lemma WrittenStep(inp: seq<string>, i: int, outp: seq<string>)
    requires 0 <= i < |inp| && Written(inp) == outp + Written(inp[i..])
    ensures FormatLine(inp[i]).None? ==> Written(inp) == outp
    ensures FormatLine(inp[i]).Some? ==>
      Written(inp) == (outp + [FormatLine(inp[i]).value + "\n"]) + Written(inp[i + 1..])
  {
    assert inp[i..][0] == inp[i];
    assert inp[i..][1..] == inp[i + 1..];
    if FormatLine(inp[i]).Some? {
      var o := FormatLine(inp[i]).value + "\n";
      assert Written(inp[i..]) == [o] + Written(inp[i + 1..]);
      assert (outp + [o]) + Written(inp[i + 1..]) == outp + ([o] + Written(inp[i + 1..]));
    }
  }

  /**
   * The loop over the input stream: `outp` is what was written. Lines are
   * written in order, one per input line, until a line without a tab stops
   * the loop with an error (`ok` false).
   */
  method ReformatGitLog(inp: seq<string>) returns (outp: seq<string>, ok: bool)
    ensures outp == Written(inp)
    ensures ok <==> |outp| == |inp|
  {
    outp := [];
    var i := 0;
    while i < |inp|
      invariant 0 <= i <= |inp| && |outp| == i
      invariant Written(inp) == outp + Written(inp[i..])
    {
      var formatted := FormatLine(inp[i]);
      WrittenStep(inp, i, outp);
      if formatted.None? {
        return outp, false;
      }
      outp := outp + [formatted.value + "\n"];
      i := i + 1;
    }
    ok := true;
  }
}
