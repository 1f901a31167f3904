/** Shared vocabulary: optional values, Java-exception-shaped failures and the
    few ASCII string operations the rules use. */
module Common {

  datatype Option<+T> = None | Some(value: T) {
    function GetOr(default: T): T {
      match this
      case Some(v) => v
      case None => default
    }
  }

  /** The Java runtime exceptions the modelled code can raise. */
  datatype Failure =
    | NullPointer          // a method called on a missing (null) value
    | IllegalState         // Gson getAs* on an element of the wrong shape
    | ClassCast            // an explicit cast to JsonObject / JsonPrimitive
    | UnsupportedOperation // getAsString on JsonNull or JsonObject
    | IllegalArgument      // Enum.valueOf on an unknown constant
    | NoSuchElement        // Optional.get on an empty Optional

  /** A computation that either returns a value or throws. */
  datatype Result<+T> = Ok(value: T) | Err(failure: Failure) {
    predicate IsFailure() {
      Err?
    }

    function PropagateFailure<U>(): Result<U>
      requires Err?
    {
      Err(failure)
    }

    function Extract(): T
      requires Ok?
    {
      value
    }
  }

  /** Java's `s.contains(sub)`. */
  predicate IsSubstring(sub: string, s: string)
    decreases |s|
  {
    (|sub| <= |s| && s[..|sub|] == sub) || (|s| > 0 && IsSubstring(sub, s[1..]))
  }

  function LowerChar(c: char): char {
    if 'A' <= c <= 'Z' then (c as int + 32) as char else c
  }

  function UpperChar(c: char): char {
    if 'a' <= c <= 'z' then (c as int - 32) as char else c
  }

  /** `String.toLowerCase` restricted to the ASCII alphabet. */
  function ToLower(s: string): (r: string)
    ensures |r| == |s|
    ensures forall i :: 0 <= i < |s| ==> r[i] == LowerChar(s[i])
  {
    seq(|s|, i requires 0 <= i < |s| => LowerChar(s[i]))
  }

  /** `String.toUpperCase` restricted to the ASCII alphabet. */
  function ToUpper(s: string): (r: string)
    ensures |r| == |s|
    ensures forall i :: 0 <= i < |s| ==> r[i] == UpperChar(s[i])
  {
    seq(|s|, i requires 0 <= i < |s| => UpperChar(s[i]))
  }

  /** Java's `s.replace(target, replacement)`: every non-overlapping
      occurrence of a non-empty target, scanning left to right. */
  function Replace(s: string, target: string, replacement: string): string
    requires |target| > 0
    decreases |s|
  {
    if |s| < |target| then s
    else if s[..|target|] == target then replacement + Replace(s[|target|..], target, replacement)
    else [s[0]] + Replace(s[1..], target, replacement)
  }

  /** A character that the replacement does not contain and that the target
      cannot produce is kept out of the result if it was not in the input. */
  lemma {:induction false} ReplaceKeepsOut(s: string, target: string, replacement: string, c: char)
    requires |target| > 0
    requires c !in s && c !in replacement
    ensures c !in Replace(s, target, replacement)
    decreases |s|
  {
    if |s| < |target| {
    } else if s[..|target|] == target {
      ReplaceKeepsOut(s[|target|..], target, replacement, c);
    } else {
      ReplaceKeepsOut(s[1..], target, replacement, c);
    }
  }

  /** Removing every occurrence of a one-character target leaves none behind. */
  lemma {:induction false} ReplaceRemovesChar(s: string, c: char, replacement: string)
    requires c !in replacement
    ensures c !in Replace(s, [c], replacement)
    decreases |s|
  {
    if |s| < 1 {
    } else if s[..1] == [c] {
      ReplaceRemovesChar(s[1..], c, replacement);
    } else {
      assert s[0] != c by { assert s[..1] == [s[0]]; }
      ReplaceRemovesChar(s[1..], c, replacement);
    }
  }

  /** A replacement no longer than its target never lengthens the text. */
  lemma {:induction false} ReplaceNoLonger(s: string, target: string, replacement: string)
    requires |target| > 0 && |replacement| <= |target|
    ensures |Replace(s, target, replacement)| <= |s|
    decreases |s|
  {
    if |s| < |target| {
    } else if s[..|target|] == target {
      ReplaceNoLonger(s[|target|..], target, replacement);
    } else {
      ReplaceNoLonger(s[1..], target, replacement);
    }
  }

  /** A text occurs in anything built around it. */
  lemma {:induction false} SubstringOfConcat(before: string, sub: string, after: string)
    ensures IsSubstring(sub, before + sub + after)
    decreases |before|
  {
    if |before| == 0 {
      assert (before + sub + after)[..|sub|] == sub;
    } else {
      assert (before + sub + after)[1..] == before[1..] + sub + after;
      SubstringOfConcat(before[1..], sub, after);
    }
  }

  /** `String.join(separator, parts)`. */
  function Join(parts: seq<string>, separator: string): string {
    if |parts| == 0 then ""
    else if |parts| == 1 then parts[0]
    else parts[0] + separator + Join(parts[1..], separator)
  }

  /** Each part occurs in the joined text. */
  lemma {:induction false} JoinContainsParts(parts: seq<string>, separator: string, i: int)
    requires 0 <= i < |parts|
    ensures IsSubstring(parts[i], Join(parts, separator))
    decreases |parts|
  {
    if |parts| == 1 {
      SubstringOfConcat("", parts[0], "");
      assert "" + parts[0] + "" == parts[0];
    } else if i == 0 {
      SubstringOfConcat("", parts[0], separator + Join(parts[1..], separator));
      assert "" + parts[0] + (separator + Join(parts[1..], separator)) == Join(parts, separator);
    } else {
      JoinContainsParts(parts[1..], separator, i - 1);
      var rest := Join(parts[1..], separator);
      SubstringAfter(parts[0] + separator, parts[i], rest);
    }
  }

  /** Text that occurs in a suffix occurs in the whole. */
  lemma {:induction false} SubstringAfter(prefix: string, sub: string, s: string)
    requires IsSubstring(sub, s)
    ensures IsSubstring(sub, prefix + s)
    decreases |prefix|
  {
    if |prefix| > 0 {
      SubstringAfter(prefix[1..], sub, s);
      assert (prefix + s)[1..] == prefix[1..] + s;
    } else {
      assert prefix + s == s;
    }
  }
}
