/** The name sanitizer, `sanitize` in server.js: every caller-supplied file or text
    name passes through it before a path is built. Three steps, in this order:
    unsafe characters become `_`, `..` tokens are deleted left to right, and the
    result is cut to 100 characters. */
module Sanitizer {

  /** Longest name `sanitize` returns. */
  const MaxNameLength := 100

  /** The character class `[A-Za-z0-9_.-]`. */
  predicate IsSafeChar(c: char) {
    ('a' <= c <= 'z') || ('A' <= c <= 'Z') || ('0' <= c <= '9') || c == '_' || c == '.' || c == '-'
  }

  predicate AllSafe(s: string) {
    forall i :: 0 <= i < |s| ==> IsSafeChar(s[i])
  }

  /** `s` contains no `..`: no dot is immediately followed by another. */
  predicate NoDotDot(s: string) {
    forall i :: 0 < i < |s| ==> !(s[i - 1] == '.' && s[i] == '.')
  }

  /** The characters of `s` other than dots, in order. */
  function NonDots(s: string): string
    decreases |s|
  {
    if s == [] then [] else (if s[0] == '.' then [] else [s[0]]) + NonDots(s[1..])
  }

  /** Step 1, `replace(/[^a-zA-Z0-9_.-]/g, '_')`. */
  function ReplaceUnsafe(s: string): (r: string)
    ensures |r| == |s|
    ensures forall i :: 0 <= i < |s| ==> r[i] == (if IsSafeChar(s[i]) then s[i] else '_')
    decreases |s|
  {
    if s == [] then [] else [if IsSafeChar(s[0]) then s[0] else '_'] + ReplaceUnsafe(s[1..])
  }

  /** Step 2, `replace(/\.\./g, '')`: a global regex replace scans from the left and
      resumes after each match, so matches never overlap. */
  function StripDotDot(s: string): (r: string)
    ensures |r| <= |s|
    ensures NoDotDot(r)
    decreases |s|
  {
    if |s| >= 2 && s[0] == '.' && s[1] == '.' then StripDotDot(s[2..])
    else if s == [] then []
    else [s[0]] + StripDotDot(s[1..])
  }

  /** Step 3, `slice(0, n)`. */
  function Truncate(s: string, n: nat): (r: string)
    ensures |r| <= n
    ensures |s| <= n ==> r == s
    ensures |s| > n ==> |r| == n
    ensures r == s[..|r|]
  {
    if |s| <= n then s else s[..n]
  }

  /** `sanitize(name)`: only safe characters, at most 100 of them, and no `..`. */
  function Sanitize(name: string): (safe: string)
    ensures AllSafe(safe)
    ensures |safe| <= MaxNameLength
    ensures NoDotDot(safe)
  {
    var replaced := ReplaceUnsafe(name);
    StripKeepsSafe(replaced);
    Truncate(StripDotDot(replaced), MaxNameLength)
  }

  /** Deleting `..` tokens keeps every other character, so a safe string stays safe. */
  lemma {:induction false} StripKeepsSafe(s: string)
    requires AllSafe(s)
    ensures AllSafe(StripDotDot(s))
    decreases |s|
  {
    if |s| >= 2 && s[0] == '.' && s[1] == '.' {
      StripKeepsSafe(s[2..]);
    } else if s != [] {
      StripKeepsSafe(s[1..]);
    }
  }

  /** Only dots are deleted: the other characters survive in order. */
  lemma {:induction false} StripKeepsNonDots(s: string)
    ensures NonDots(StripDotDot(s)) == NonDots(s)
    decreases |s|
  {
    if |s| >= 2 && s[0] == '.' && s[1] == '.' {
      StripKeepsNonDots(s[2..]);
      assert s[1..][1..] == s[2..];
    } else if s != [] {
      StripKeepsNonDots(s[1..]);
      var r := [s[0]] + StripDotDot(s[1..]);
      assert r[1..] == StripDotDot(s[1..]);
    }
  }

  /** Dots are deleted two at a time. */
  lemma {:induction false} StripRemovesPairs(s: string)
    ensures (|s| - |StripDotDot(s)|) % 2 == 0
    decreases |s|
  {
    if |s| >= 2 && s[0] == '.' && s[1] == '.' {
      StripRemovesPairs(s[2..]);
    } else if s != [] {
      StripRemovesPairs(s[1..]);
    }
  }

  /** Stripping changes a string exactly when it contains `..`. */
  lemma {:induction false} StripFixedPoints(s: string)
    ensures StripDotDot(s) == s <==> NoDotDot(s)
    decreases |s|
  {
    if |s| >= 2 && s[0] == '.' && s[1] == '.' {
      assert !NoDotDot(s) by { assert s[0] == '.' && s[1] == '.'; }
      assert |StripDotDot(s)| <= |s| - 2;
    } else if s != [] {
      StripFixedPoints(s[1..]);
      if NoDotDot(s) {
        assert NoDotDot(s[1..]) by {
          forall i | 0 < i < |s[1..]| ensures !(s[1..][i - 1] == '.' && s[1..][i] == '.') {
            assert s[1..][i - 1] == s[i] && s[1..][i] == s[i + 1];
          }
        }
        assert [s[0]] + s[1..] == s;
      }
    }
  }

  /** The names `sanitize` leaves alone are exactly the safe ones: safe characters,
      no `..`, at most 100 long. */
  lemma {:induction false} SanitizeFixedPoints(name: string)
    ensures Sanitize(name) == name <==> AllSafe(name) && NoDotDot(name) && |name| <= MaxNameLength
  {
    if AllSafe(name) && NoDotDot(name) && |name| <= MaxNameLength {
      var replaced := ReplaceUnsafe(name);
      assert replaced == name;
      StripFixedPoints(name);
    }
  }

  /** Sanitizing twice is sanitizing once. */
  lemma {:induction false} SanitizeIdempotent(name: string)
    ensures Sanitize(Sanitize(name)) == Sanitize(name)
  {
    SanitizeFixedPoints(Sanitize(name));
  }

  /** A traversal attempt: `/` becomes `_`, the `..` survives step 1 (a dot is safe)
      and is deleted in step 2. */
  lemma TraversalExample()
    ensures Sanitize("../../x") == "__x"
  {
  }

  /** Matches do not overlap: of three dots one is left; four vanish. */
  lemma DotRunExample()
    ensures Sanitize("a...b") == "a.b"
    ensures Sanitize("....") == ""
  {
  }
}
