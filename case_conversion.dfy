/** Property names to attribute names (src/propToAttrName.js), and the
    capitalised suffix of the accessor names `initializeProps` installs. */
module CaseConversion {

  predicate IsUpper(c: char) { 'A' <= c <= 'Z' }

  predicate IsLower(c: char) { 'a' <= c <= 'z' }

  /** `toLowerCase` on an ASCII capital. */
  function ToLower(c: char): (r: char)
    requires IsUpper(c)
    ensures IsLower(r) && r as int - 'a' as int == c as int - 'A' as int
  {
    (c as int - 'A' as int + 'a' as int) as char
  }

  /** `toUpperCase` on an ASCII lower-case letter. */
  function ToUpper(c: char): (r: char)
    requires IsLower(c)
    ensures IsUpper(r) && r as int - 'A' as int == c as int - 'a' as int
  {
    (c as int - 'a' as int + 'A' as int) as char
  }

  /** A match of the pattern `/([A-Z])[a-z]/` starts at index `i`. */
  predicate PairAt(s: string, i: int) {
    0 <= i && i + 1 < |s| && IsUpper(s[i]) && IsLower(s[i + 1])
  }

  ghost predicate HasPair(s: string) {
    exists i :: PairAt(s, i)
  }

  /** The number of positions where the pattern matches. Matches can never
      overlap (the second character of a match is not a capital), so this is
      also the number of replacements the global `replace` makes. */
  function PairCount(s: string): nat {
    if |s| < 2 then 0
    else (if PairAt(s, 0) then 1 else 0) + PairCount(s[1..])
  }

  /** `propName.replace(/([A-Z])[a-z]/g, match => '-' + match.toLowerCase())`:
      scanning left to right, each capital followed by a lower-case letter
      becomes a hyphen, that capital lower-cased, and the letter. */
  function PropToAttrName(s: string): string {
    if |s| < 2 then s
    else if PairAt(s, 0) then ['-', ToLower(s[0]), s[1]] + PropToAttrName(s[2..])
    else [s[0]] + PropToAttrName(s[1..])
  }

  /** The input with every capital that starts a match lower-cased: what the
      output reads as once the inserted hyphens are taken out. */
  function LowerPairs(s: string): (r: string)
    ensures |r| == |s|
  {
    seq(|s|, i requires 0 <= i < |s| => if PairAt(s, i) then ToLower(s[i]) else s[i])
  }

  /** The string without its hyphens. */
  function RemoveHyphens(s: string): (r: string)
    ensures '-' !in r
  {
    if s == [] then [] else (if s[0] == '-' then [] else [s[0]]) + RemoveHyphens(s[1..])
  }

  lemma {:induction false} PairAtShift(s: string, k: nat, i: int)
    requires k <= |s| && 0 <= i
    ensures PairAt(s[k..], i) <==> PairAt(s, i + k)
  {
  }

  lemma {:induction false} HasPairIffCount(s: string)
    ensures HasPair(s) <==> PairCount(s) > 0
  {
    if |s| >= 2 {
      HasPairIffCount(s[1..]);
      if HasPair(s[1..]) {
        var i :| PairAt(s[1..], i);
        PairAtShift(s, 1, i);
      }
      if HasPair(s) && !PairAt(s, 0) {
        var i :| PairAt(s, i);
        PairAtShift(s, 1, i - 1);
      }
    }
  }

  /** Each match adds exactly one character, the hyphen. */
  lemma {:induction false} PropToAttrNameLength(s: string)
    ensures |PropToAttrName(s)| == |s| + PairCount(s)
  {
    if |s| >= 2 {
      if PairAt(s, 0) {
        PropToAttrNameLength(s[2..]);
        assert s[1..][1..] == s[2..];
        assert !PairAt(s[1..], 0);
      } else {
        PropToAttrNameLength(s[1..]);
      }
    }
  }

  /** A name is its own attribute name exactly when it has no capital
      followed by a lower-case letter (`count`, `isX`). */
  lemma {:induction false} PropToAttrNameFixedPoint(s: string)
    ensures PropToAttrName(s) == s <==> !HasPair(s)
  {
    PropToAttrNameLength(s);
    HasPairIffCount(s);
    if !HasPair(s) {
      UnchangedWithoutPair(s);
    }
  }

  lemma {:induction false} UnchangedWithoutPair(s: string)
    requires !HasPair(s)
    ensures PropToAttrName(s) == s
  {
    if |s| >= 2 {
      assert !PairAt(s, 0);
      forall i | PairAt(s[1..], i) ensures false {
        PairAtShift(s, 1, i);
      }
      UnchangedWithoutPair(s[1..]);
    }
  }

  /** A name without capitals is its own attribute name. */
  lemma NoCapitalsUnchanged(s: string)
    requires forall i :: 0 <= i < |s| ==> !IsUpper(s[i])
    ensures PropToAttrName(s) == s
  {
    PropToAttrNameFixedPoint(s);
  }

  /** The first output character is the hyphen of a leading match, or the
      first input character. */
  lemma {:induction false} PropToAttrNameHead(s: string)
    requires |s| > 0
    ensures |PropToAttrName(s)| > 0
    ensures PropToAttrName(s)[0] == if PairAt(s, 0) then '-' else s[0]
  {
  }

  /** The output has no capital followed by a lower-case letter. */
  lemma {:induction false} PropToAttrNameHasNoPair(s: string)
    ensures !HasPair(PropToAttrName(s))
  {
    var out := PropToAttrName(s);
    if |s| < 2 {
    } else if PairAt(s, 0) {
      var rest := PropToAttrName(s[2..]);
      PropToAttrNameHasNoPair(s[2..]);
      assert out == ['-', ToLower(s[0]), s[1]] + rest;
      forall i | 0 <= i ensures !PairAt(out, i) {
        if 3 <= i && i + 1 < |out| {
          assert out[i] == rest[i - 3] && out[i + 1] == rest[i - 2];
          assert !PairAt(rest, i - 3);
        }
      }
    } else {
      var rest := PropToAttrName(s[1..]);
      PropToAttrNameHasNoPair(s[1..]);
      PropToAttrNameHead(s[1..]);
      assert out == [s[0]] + rest;
      forall i | 0 <= i ensures !PairAt(out, i) {
        if 1 <= i && i + 1 < |out| {
          assert out[i] == rest[i - 1] && out[i + 1] == rest[i];
          assert !PairAt(rest, i - 1);
        }
      }
    }
  }

  /** Converting an attribute name again changes nothing. */
  lemma PropToAttrNameIdempotent(s: string)
    ensures PropToAttrName(PropToAttrName(s)) == PropToAttrName(s)
  {
    PropToAttrNameHasNoPair(s);
    PropToAttrNameFixedPoint(PropToAttrName(s));
  }

  lemma {:induction false} RemoveHyphensConcat(a: string, b: string)
    ensures RemoveHyphens(a + b) == RemoveHyphens(a) + RemoveHyphens(b)
  {
    if a == [] {
      assert a + b == b;
    } else {
      assert (a + b)[0] == a[0] && (a + b)[1..] == a[1..] + b;
      RemoveHyphensConcat(a[1..], b);
      var h := if a[0] == '-' then [] else [a[0]];
      assert RemoveHyphens(a + b) == h + (RemoveHyphens(a[1..]) + RemoveHyphens(b));
    }
  }

  lemma {:induction false} LowerPairsSuffix(s: string, k: nat)
    requires k <= |s|
    ensures LowerPairs(s)[k..] == LowerPairs(s[k..])
  {
    forall i | 0 <= i < |s| - k ensures LowerPairs(s)[k..][i] == LowerPairs(s[k..])[i] {
      PairAtShift(s, k, i);
    }
  }

  /** Taking out the hyphens, the output is the input with exactly the
      capitals that start a match lower-cased (hyphens already in the input
      are taken out of both sides). */
  lemma {:induction false} PropToAttrNameLowersPairs(s: string)
    ensures RemoveHyphens(PropToAttrName(s)) == RemoveHyphens(LowerPairs(s))
  {
    if |s| < 2 {
      assert !PairAt(s, 0);
      assert LowerPairs(s) == s;
    } else if PairAt(s, 0) {
      PropToAttrNameLowersPairs(s[2..]);
      LowersPairsAtMatch(s);
    } else {
      PropToAttrNameLowersPairs(s[1..]);
      LowersPairsElsewhere(s);
    }
  }

  /** The step of `PropToAttrNameLowersPairs` where a match starts the input. */
  lemma LowersPairsAtMatch(s: string)
    requires PairAt(s, 0)
    requires RemoveHyphens(PropToAttrName(s[2..])) == RemoveHyphens(LowerPairs(s[2..]))
    ensures RemoveHyphens(PropToAttrName(s)) == RemoveHyphens(LowerPairs(s))
  {
    var head := [ToLower(s[0]), s[1]];
    var rest := PropToAttrName(s[2..]);
    assert PropToAttrName(s) == ['-'] + head + rest;
    LowerPairsSuffix(s, 2);
    var low := LowerPairs(s);
    assert low == head + low[2..] by {
      assert !PairAt(s, 1);
    }
    assert RemoveHyphens(head) == head by {
      assert IsLower(head[0]) && IsLower(head[1]);
      RemoveHyphensNone(head);
    }
    RemoveHyphensConcat(['-'] + head, rest);
    RemoveHyphensConcat(['-'], head);
    RemoveHyphensConcat(head, low[2..]);
  }

  /** The step of `PropToAttrNameLowersPairs` where no match starts the input. */
  lemma LowersPairsElsewhere(s: string)
    requires |s| >= 2 && !PairAt(s, 0)
    requires RemoveHyphens(PropToAttrName(s[1..])) == RemoveHyphens(LowerPairs(s[1..]))
    ensures RemoveHyphens(PropToAttrName(s)) == RemoveHyphens(LowerPairs(s))
  {
    var rest := PropToAttrName(s[1..]);
    assert PropToAttrName(s) == [s[0]] + rest;
    LowerPairsSuffix(s, 1);
    var low := LowerPairs(s);
    assert low == [s[0]] + low[1..];
    RemoveHyphensConcat([s[0]], rest);
    RemoveHyphensConcat([s[0]], low[1..]);
  }

  lemma {:induction false} RemoveHyphensNone(s: string)
    requires '-' !in s
    ensures RemoveHyphens(s) == s
  {
    if s != [] {
      RemoveHyphensNone(s[1..]);
    }
  }

  /** For a name without hyphens, deleting the hyphens from its attribute
      name gives back the name with the matched capitals lower-cased. */
  lemma PropToAttrNameInsertsOnlyHyphens(s: string)
    requires '-' !in s
    ensures RemoveHyphens(PropToAttrName(s)) == LowerPairs(s)
  {
    PropToAttrNameLowersPairs(s);
    assert '-' !in LowerPairs(s) by {
      forall i | 0 <= i < |s| ensures LowerPairs(s)[i] != '-' {
        if PairAt(s, i) {
          assert IsLower(ToLower(s[i]));
        } else {
          assert s[i] in s;
        }
      }
    }
    RemoveHyphensNone(LowerPairs(s));
  }

  /** A prefix in which no match starts is copied unchanged. */
  lemma {:induction false} CopiesPrefixWithoutMatch(p: string, t: string)
    requires forall i :: 0 <= i < |p| ==> !PairAt(p + t, i)
    ensures PropToAttrName(p + t) == p + PropToAttrName(t)
  {
    if p != [] {
      var s := p + t;
      assert s[1..] == p[1..] + t;
      forall i | 0 <= i < |p[1..]| ensures !PairAt(p[1..] + t, i) {
        PairAtShift(s, 1, i);
      }
      CopiesPrefixWithoutMatch(p[1..], t);
      if |s| >= 2 {
        assert !PairAt(s, 0);
        assert PropToAttrName(s) == [p[0]] + (p[1..] + PropToAttrName(t));
        assert p == [p[0]] + p[1..];
      } else {
        assert t == [] && s == p;
      }
    } else {
      assert p + t == t;
    }
  }

  /** The scan can be cut wherever no match straddles the cut: converting
      the two parts separately and joining them gives the whole. */
  lemma {:induction false} PropToAttrNameSplit(p: string, t: string)
    requires !(|p| > 0 && PairAt(p + t, |p| - 1))
    ensures PropToAttrName(p + t) == PropToAttrName(p) + PropToAttrName(t)
    decreases |p|
  {
    var s := p + t;
    if |p| == 0 {
      assert s == t;
    } else if |p| == 1 {
      if |s| < 2 {
        assert t == [] && s == p;
      } else {
        assert s[1..] == t;
      }
    } else if PairAt(p, 0) {
      assert PairAt(s, 0);
      assert s[2..] == p[2..] + t;
      if |p| > 2 {
        PairAtShift(s, 2, |p| - 3);
      }
      PropToAttrNameSplit(p[2..], t);
      var head := ['-', ToLower(s[0]), s[1]];
      assert PropToAttrName(s) == head + (PropToAttrName(p[2..]) + PropToAttrName(t));
      assert PropToAttrName(p) == head + PropToAttrName(p[2..]);
    } else {
      assert !PairAt(s, 0);
      assert s[1..] == p[1..] + t;
      PairAtShift(s, 1, |p| - 2);
      PropToAttrNameSplit(p[1..], t);
      assert PropToAttrName(s) == [s[0]] + (PropToAttrName(p[1..]) + PropToAttrName(t));
      assert PropToAttrName(p) == [p[0]] + PropToAttrName(p[1..]);
    }
  }

  /** Every match, wherever it stands, is replaced in place: the text before
      it is converted on its own, the match becomes `-` and the match
      lower-cased, and the text after it is converted on its own. */
  lemma PropToAttrNameAtMatch(s: string, i: int)
    requires PairAt(s, i)
    ensures PropToAttrName(s)
         == PropToAttrName(s[..i]) + ['-', ToLower(s[i]), s[i + 1]] + PropToAttrName(s[i + 2..])
  {
    assert s == s[..i] + s[i..];
    assert !(i > 0 && PairAt(s, i - 1));
    PropToAttrNameSplit(s[..i], s[i..]);
    assert s[i..][2..] == s[i + 2..];
    assert PropToAttrName(s[i..]) == ['-', ToLower(s[i]), s[i + 1]] + PropToAttrName(s[i + 2..]);
  }

  /** Worked example: `fooBar` becomes `foo-bar`. */
  lemma ExampleFooBar()
    ensures PropToAttrName("fooBar") == "foo-bar"
  {
    assert "fooBar" == "foo" + "Bar";
    CopiesPrefixWithoutMatch("foo", "Bar");
    assert "Bar"[2..] == "r";
  }

  /** A run of capitals before a word: the capitals are kept as they are,
      except the last, which starts the only match. */
  lemma {:induction false} CapitalsThenWord(caps: string, c: char, d: char, word: string)
    requires forall i :: 0 <= i < |caps| ==> IsUpper(caps[i])
    requires IsUpper(c) && IsLower(d)
    requires forall i :: 0 <= i < |word| ==> !IsUpper(word[i])
    ensures PropToAttrName(caps + [c, d] + word) == caps + ['-', ToLower(c), d] + word
  {
    var t := [c, d] + word;
    var out := ['-', ToLower(c), d] + word;
    assert PropToAttrName(t) == out by {
      assert PairAt(t, 0) && t[2..] == word;
      NoCapitalsUnchanged(word);
    }
    assert PropToAttrName(caps + t) == caps + PropToAttrName(t) by {
      NoMatchAmongCapitals(caps, t);
      CopiesPrefixWithoutMatch(caps, t);
    }
    assert caps + [c, d] + word == caps + t;
    assert caps + ['-', ToLower(c), d] + word == caps + out;
  }

  /** No match starts inside a run of capitals followed by a capital. */
  lemma {:induction false} NoMatchAmongCapitals(caps: string, t: string)
    requires forall i :: 0 <= i < |caps| ==> IsUpper(caps[i])
    requires |t| > 0 && IsUpper(t[0])
    ensures forall i :: 0 <= i < |caps| ==> !PairAt(caps + t, i)
  {
    forall i | 0 <= i < |caps| ensures !PairAt(caps + t, i) {
      assert (caps + t)[i + 1] == if i + 1 < |caps| then caps[i + 1] else t[0];
    }
  }

  /** Worked example: `HTMLParser` becomes `HTML-parser`; only the last
      capital is followed by a lower-case letter. */
  lemma ExampleHtmlParser()
    ensures PropToAttrName("HTMLParser") == "HTML-parser"
  {
    CapitalsThenWord("HTML", 'P', 'a', "rser");
    assert "HTML" + ['P', 'a'] + "rser" == "HTMLParser";
    assert "HTML" + ['-', 'p', 'a'] + "rser" == "HTML-parser";
  }

  /** Worked examples: `count` and `isX` have no match and stay as they are. */
  lemma ExamplesUnchanged()
    ensures PropToAttrName("count") == "count"
    ensures PropToAttrName("isX") == "isX"
  {
    NoCapitalsUnchanged("count");
    assert "isX" == "isX" + "";
    CopiesPrefixWithoutMatch("isX", "");
  }

  /** `key.replace(/^(\w)/, match => match.toUpperCase())`: a leading word
      character is upper-cased; only a lower-case letter changes. */
  function Capitalize(key: string): (r: string)
    ensures |r| == |key|
    ensures |key| > 0 ==> r[1..] == key[1..] && !IsLower(r[0])
    ensures |key| > 0 && IsLower(key[0]) ==> r[0] == ToUpper(key[0])
    ensures |key| > 0 && !IsLower(key[0]) ==> r == key
  {
    if |key| > 0 && IsLower(key[0]) then [ToUpper(key[0])] + key[1..] else key
  }
}
