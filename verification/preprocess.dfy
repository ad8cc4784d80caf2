/** The preprocessor: every `--` of the raw export becomes a line break. */
module Preprocess {

  /** True when `s` holds the two-character record-fragment delimiter `--`. */
  predicate HasDelimiter(s: string) {
    exists i :: 0 <= i < |s| - 1 && s[i] == '-' && s[i + 1] == '-'
  }

  /** Left-to-right replacement of non-overlapping `--` by `\n`, as
      `str.replace('--', '\n')` does. */
  function ReplaceDelimiter(s: string): (r: string)
    ensures |r| <= |s|
    ensures |s| > 0 ==> |r| > 0 && (r[0] == '\n' || r[0] == s[0])
    ensures !HasDelimiter(r)
    decreases |s|
  {
    if |s| < 2 then s
    else if s[0] == '-' && s[1] == '-' then "\n" + ReplaceDelimiter(s[2..])
    else [s[0]] + ReplaceDelimiter(s[1..])
  }

  /** Text free of the delimiter is left as it is. */
  lemma {:induction false} CleanTextUnchanged(s: string)
    requires !HasDelimiter(s)
    ensures ReplaceDelimiter(s) == s
    decreases |s|
  {
    if |s| >= 2 {
      assert !(s[0] == '-' && s[1] == '-');
      assert !HasDelimiter(s[1..]) by {
        forall i | 0 <= i < |s[1..]| - 1
          ensures !(s[1..][i] == '-' && s[1..][i + 1] == '-')
        {
          assert s[1..][i] == s[i + 1] && s[1..][i + 1] == s[i + 2];
        }
      }
      CleanTextUnchanged(s[1..]);
    }
  }

  /** Preprocessing twice is the same as preprocessing once. */
  lemma Idempotent(s: string)
    ensures ReplaceDelimiter(ReplaceDelimiter(s)) == ReplaceDelimiter(s)
  {
    CleanTextUnchanged(ReplaceDelimiter(s));
  }

  /** Each replacement shortens the text by one character and adds one line
      break; every other character is kept. */
  function LineBreaks(s: string): nat {
    if s == [] then 0 else (if s[0] == '\n' then 1 else 0) + LineBreaks(s[1..])
  }

  lemma {:induction false} ReplacementCount(s: string)
    ensures LineBreaks(ReplaceDelimiter(s)) == LineBreaks(s) + (|s| - |ReplaceDelimiter(s)|)
    decreases |s|
  {
    if |s| < 2 {
    } else if s[0] == '-' && s[1] == '-' {
      ReplacementCount(s[2..]);
      var t := ReplaceDelimiter(s[2..]);
      assert ("\n" + t)[1..] == t;
      assert s[1..][1..] == s[2..];
    } else {
      ReplacementCount(s[1..]);
      var t := ReplaceDelimiter(s[1..]);
      assert ([s[0]] + t)[1..] == t;
    }
  }
}
