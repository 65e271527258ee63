/** Models of the Python `str` operations that the field extractors chain together:
    `strip`, `find` / `in`, `replace`, `split`, `join` and the `string.printable` filter. */
module PyStr {
  import opened Wrappers

  /** The characters for which Python's `str.isspace()` holds, which `str.strip()` removes
      when it is given no argument (the no-break space U+00A0 among them). */
  const Whitespace: string :=
    " \t\n\U{B}\U{C}\r\U{1C}\U{1D}\U{1E}\U{1F}\U{85}\U{A0}\U{1680}"
    + "\U{2000}\U{2001}\U{2002}\U{2003}\U{2004}\U{2005}\U{2006}\U{2007}\U{2008}\U{2009}\U{200A}"
    + "\U{2028}\U{2029}\U{202F}\U{205F}\U{3000}"

  /** Every whitespace character is a control character, the space itself, or lies above
      the ASCII range. */
  lemma WhitespaceBounds()
    ensures forall c :: c in Whitespace ==> c <= ' ' || '\U{85}' <= c
  {
  }

  /** The ASCII information separators U+001C to U+001F are whitespace to `strip()`. */
  lemma SeparatorIsWhitespace(c: char)
    requires '\U{1C}' <= c <= '\U{1F}'
    ensures c in Whitespace
  {
    assert Whitespace[6] == '\U{1C}' && Whitespace[7] == '\U{1D}';
    assert Whitespace[8] == '\U{1E}' && Whitespace[9] == '\U{1F}';
  }

  /** A visible ASCII character is not whitespace. */
  lemma NotWhitespace(c: char)
    requires ' ' < c < '\U{85}'
    ensures c !in Whitespace
  {
    WhitespaceBounds();
  }

  /** `s.lstrip(chars)`: a suffix of `s` that starts with a kept character, everything
      before it being removable. */
  function LStrip(s: string, chars: string): (r: string)
    ensures |r| <= |s| && r == s[|s| - |r|..]
    ensures forall k :: 0 <= k < |s| - |r| ==> s[k] in chars
    ensures |r| > 0 ==> r[0] !in chars
    decreases |s|
  {
    if |s| > 0 && s[0] in chars then LStrip(s[1..], chars) else s
  }

  /** `s.rstrip(chars)`: a prefix of `s` that ends with a kept character, everything
      after it being removable. */
  function RStrip(s: string, chars: string): (r: string)
    ensures |r| <= |s| && r == s[..|r|]
    ensures forall k :: |r| <= k < |s| ==> s[k] in chars
    ensures |r| > 0 ==> r[|r| - 1] !in chars
    decreases |s|
  {
    if |s| > 0 && s[|s| - 1] in chars then RStrip(s[..|s| - 1], chars) else s
  }

  /** `s.strip(chars)`, and `s.strip()` when `chars` is `Whitespace`: no removable character
      is left at either end. */
  function Strip(s: string, chars: string): (r: string)
    ensures |r| <= |s|
    ensures |r| > 0 ==> r[0] !in chars && r[|r| - 1] !in chars
  {
    RStrip(LStrip(s, chars), chars)
  }

  /** `strip` returns the empty string exactly when every character is removable. */
  lemma StripEmpty(s: string, chars: string)
    ensures Strip(s, chars) == [] <==> forall k :: 0 <= k < |s| ==> s[k] in chars
  {
  }

  /** A string whose ends are not removable comes back from `strip` unchanged. */
  lemma StripUnchanged(s: string, chars: string)
    requires |s| > 0 && s[0] !in chars && s[|s| - 1] !in chars
    ensures Strip(s, chars) == s
  {
  }

  /** `lstrip` only removes characters, and only removable ones. */
  lemma {:induction false} LStripKeeps(s: string, chars: string)
    ensures forall c :: c in LStrip(s, chars) ==> c in s
    ensures forall c :: c in s && c !in chars ==> c in LStrip(s, chars)
    decreases |s|
  {
    if |s| > 0 && s[0] in chars {
      var tail := s[1..];
      LStripKeeps(tail, chars);
      assert forall c :: c in tail ==> c in s;
      assert forall c :: c in s && c != s[0] ==> c in tail;
    }
  }

  /** `rstrip` only removes characters, and only removable ones. */
  lemma {:induction false} RStripKeeps(s: string, chars: string)
    ensures forall c :: c in RStrip(s, chars) ==> c in s
    ensures forall c :: c in s && c !in chars ==> c in RStrip(s, chars)
    decreases |s|
  {
    if |s| > 0 && s[|s| - 1] in chars {
      var init := s[..|s| - 1];
      RStripKeeps(init, chars);
      assert forall c :: c in init ==> c in s;
      assert forall c :: c in s && c != s[|s| - 1] ==> c in init;
    }
  }

  /** One removable character after a string without removable ends is all `strip` drops. */
  lemma StripTrailing(s: string, c: char, chars: string)
    requires |s| > 0 && s[0] !in chars && s[|s| - 1] !in chars && c in chars
    ensures Strip(s + [c], chars) == s
  {
    var t := s + [c];
    assert t[0] == s[0];
    assert LStrip(t, chars) == t;
    assert t[..|t| - 1] == s;
    assert RStrip(t, chars) == RStrip(s, chars);
  }

  /** One removable character before a string without removable ends is all `strip` drops. */
  lemma StripLeading(c: char, s: string, chars: string)
    requires |s| > 0 && s[0] !in chars && s[|s| - 1] !in chars && c in chars
    ensures Strip([c] + s, chars) == s
  {
    var t := [c] + s;
    assert t[1..] == s;
    assert LStrip(t, chars) == LStrip(s, chars) == s;
    assert RStrip(s, chars) == s;
  }

  /** `strip` only removes characters: what it returns comes from `s`, and every character
      of `s` that is not removable is still there. */
  lemma StripKeeps(s: string, chars: string)
    ensures forall c :: c in Strip(s, chars) ==> c in s
    ensures forall c :: c in s && c !in chars ==> c in Strip(s, chars)
  {
    LStripKeeps(s, chars);
    RStripKeeps(LStrip(s, chars), chars);
  }

  /** `sub` occurs in `s` starting at index `j`. */
  predicate OccursAt(s: string, sub: string, j: int) {
    0 <= j && j + |sub| <= |s| && s[j..j + |sub|] == sub
  }

  /** `s.startswith(t)`. */
  predicate StartsWith(s: string, t: string) {
    |t| <= |s| && s[..|t|] == t
  }

  /** `s.find(sub)`, with `None` for Python's -1. */
  function Find(s: string, sub: string): (r: Option<nat>)
    ensures r.Some? ==> r.value + |sub| <= |s|
    decreases |s|
  {
    if |s| < |sub| then None
    else if StartsWith(s, sub) then Some(0)
    else
      match Find(s[1..], sub)
      case None => None
      case Some(i) => Some(i + 1)
  }

  /** What `find` returns is an occurrence. */
  lemma {:induction false} FindOccurs(s: string, sub: string)
    ensures Find(s, sub).Some? ==> OccursAt(s, sub, Find(s, sub).value)
    decreases |s|
  {
    if |s| >= |sub| && !StartsWith(s, sub) {
      FindOccurs(s[1..], sub);
      var rest := Find(s[1..], sub);
      if rest.Some? {
        var i := rest.value;
        var u, v := s[i + 1..i + 1 + |sub|], s[1..][i..i + |sub|];
        assert |u| == |v| && forall k :: 0 <= k < |u| ==> u[k] == v[k];
        assert u == v;
      }
    }
  }

  /** `find` returns the index of the first occurrence, and `None` only when there is none. */
  lemma {:induction false} FindIsFirstOccurrence(s: string, sub: string)
    ensures Find(s, sub).Some? ==>
      OccursAt(s, sub, Find(s, sub).value) && forall j :: 0 <= j < Find(s, sub).value ==> !OccursAt(s, sub, j)
    ensures Find(s, sub).None? ==> forall j :: !OccursAt(s, sub, j)
    decreases |s|
  {
    FindOccurs(s, sub);
    if |s| >= |sub| && !StartsWith(s, sub) {
      var tail := s[1..];
      FindIsFirstOccurrence(tail, sub);
      assert !OccursAt(s, sub, 0) by {
        assert s[..|sub|] != sub;
      }
      forall j | OccursAt(s, sub, j) ensures 1 <= j && OccursAt(tail, sub, j - 1) {
        assert tail[j - 1..j - 1 + |sub|] == s[j..j + |sub|];
      }
    }
  }

  /** Python's `sub in s`. */
  predicate Contains(s: string, sub: string) {
    Find(s, sub).Some?
  }

  /** For a one-character pattern, containment is membership of that character. */
  lemma ContainsChar(s: string, c: char)
    ensures Contains(s, [c]) <==> c in s
  {
    FindIsFirstOccurrence(s, [c]);
    if c in s {
      var k :| 0 <= k < |s| && s[k] == c;
      assert s[k..k + 1] == [c];
      assert OccursAt(s, [c], k);
    }
    if Contains(s, [c]) {
      var i := Find(s, [c]).value;
      assert s[i..i + 1] == [c];
      assert s[i] == c;
    }
  }

  /** For a one-character pattern, `find` returns the index of the first occurrence of
      that character. */
  lemma FindChar(s: string, a: char)
    ensures Find(s, [a]).Some? ==>
      var i := Find(s, [a]).value;
      s[i] == a && forall j :: 0 <= j < i ==> s[j] != a
  {
    FindIsFirstOccurrence(s, [a]);
    if Find(s, [a]).Some? {
      var i := Find(s, [a]).value;
      assert s[i..i + 1] == [a];
      forall j | 0 <= j < i ensures s[j] != a {
        assert !OccursAt(s, [a], j);
        assert s[j..j + 1] == [s[j]];
      }
    }
  }

  /** An occurrence of a pattern brings the pattern's first character with it. */
  lemma FirstCharOfMatch(s: string, sub: string)
    requires |sub| > 0
    ensures Contains(s, sub) ==> sub[0] in s
  {
    FindOccurs(s, sub);
    if Contains(s, sub) {
      var i := Find(s, sub).value;
      assert s[i..i + |sub|][0] == s[i];
    }
  }

  /** `find` skips a prefix in which the pattern's first character does not occur. */
  lemma {:induction false} FindAfterPrefix(a: string, sub: string, b: string)
    requires |sub| > 0 && sub[0] !in a
    ensures Find(a + sub + b, sub) == Some(|a|)
    decreases |a|
  {
    var s := a + sub + b;
    if a == [] {
      assert s[..|sub|] == sub;
    } else {
      FindAfterPrefix(a[1..], sub, b);
      assert s[1..] == a[1..] + sub + b;
      assert s[0] == a[0];
    }
  }

  /** `s.replace(target, repl)`: every non-overlapping occurrence of `target`, scanned from the
      left, is replaced by `repl`; a string without an occurrence comes back unchanged. Each
      step looks for the next occurrence with `find` and goes on after it. */
  function Replace(s: string, target: string, repl: string): (r: string)
    requires |target| > 0
    ensures !Contains(s, target) ==> r == s
    decreases |s|
  {
    match Find(s, target)
    case None => s
    case Some(i) => s[..i] + repl + Replace(s[i + |target|..], target, repl)
  }

  /** What `replace` returns is made of characters of `s` and of `repl`. */
  lemma {:induction false} ReplaceChars(s: string, target: string, repl: string)
    requires |target| > 0
    ensures forall c :: c in Replace(s, target, repl) ==> c in s || c in repl
    decreases |s|
  {
    match Find(s, target)
    case None =>
    case Some(i) =>
      var tail := s[i + |target|..];
      ReplaceChars(tail, target, repl);
      assert s == s[..i] + s[i..i + |target|] + tail;
  }

  /** Replacing one character `a`: every other character of `s` is kept, and `a` is gone
      when `repl` does not bring it back. */
  lemma {:induction false} ReplaceCharKeeps(s: string, a: char, repl: string)
    ensures forall c :: c in s && c != a ==> c in Replace(s, [a], repl)
    ensures a !in repl ==> a !in Replace(s, [a], repl)
    decreases |s|
  {
    match Find(s, [a])
    case None =>
      ContainsChar(s, a);
    case Some(i) =>
      var tail := s[i + 1..];
      ReplaceCharKeeps(tail, a, repl);
      FindChar(s, a);
      assert s == s[..i] + [a] + tail;
      assert a !in s[..i];
  }

  /** Replacing one character by one character maps the string character by character. */
  lemma {:induction false} ReplaceCharPointwise(s: string, a: char, b: char)
    ensures |Replace(s, [a], [b])| == |s|
    ensures forall k :: 0 <= k < |s| ==> Replace(s, [a], [b])[k] == if s[k] == a then b else s[k]
    decreases |s|
  {
    match Find(s, [a])
    case None =>
      ContainsChar(s, a);
    case Some(i) =>
      var tail := s[i + 1..];
      ReplaceCharPointwise(tail, a, b);
      FindChar(s, a);
      var r := Replace(s, [a], [b]);
      assert r == s[..i] + [b] + Replace(tail, [a], [b]);
      forall k | 0 <= k < |s| ensures r[k] == if s[k] == a then b else s[k] {
        if k > i {
          assert r[k] == Replace(tail, [a], [b])[k - i - 1];
          assert s[k] == tail[k - i - 1];
        }
      }
  }

  /** A text in which the first character of `target` does not occur is left unchanged. */
  lemma ReplaceAbsent(s: string, target: string, repl: string)
    requires |target| > 0 && target[0] !in s
    ensures Replace(s, target, repl) == s
  {
    FirstCharOfMatch(s, target);
  }

  /** A text with a single occurrence of `target`, whose first character occurs nowhere
      else, has that occurrence replaced. */
  lemma ReplaceSingle(a: string, target: string, b: string, repl: string)
    requires |target| > 0 && target[0] !in a && target[0] !in b
    ensures Replace(a + target + b, target, repl) == a + repl + b
  {
    var s := a + target + b;
    FindAfterPrefix(a, target, b);
    FirstCharOfMatch(b, target);
    assert s[..|a|] == a && s[|a| + |target|..] == b;
  }

  /** `s.split(sep)` for a non-empty separator: the pieces between the non-overlapping
      occurrences of `sep`, scanned from the left; there is always at least one piece. Each
      step cuts at the next occurrence that `find` returns. */
  function Split(s: string, sep: string): (r: seq<string>)
    requires |sep| > 0
    ensures |r| >= 1
    decreases |s|
  {
    match Find(s, sep)
    case None => [s]
    case Some(i) => [s[..i]] + Split(s[i + |sep|..], sep)
  }

  /** A text in which the first character of `sep` does not occur is a single piece. */
  lemma SplitAbsent(s: string, sep: string)
    requires |sep| > 0 && sep[0] !in s
    ensures Split(s, sep) == [s]
  {
    FirstCharOfMatch(s, sep);
  }

  /** A text with a single occurrence of `sep`, whose first character occurs nowhere else,
      splits into the two texts around it. */
  lemma SplitSingle(a: string, sep: string, b: string)
    requires |sep| > 0 && sep[0] !in a && sep[0] !in b
    ensures Split(a + sep + b, sep) == [a, b]
  {
    var s := a + sep + b;
    FindAfterPrefix(a, sep, b);
    FirstCharOfMatch(b, sep);
    assert s[..|a|] == a && s[|a| + |sep|..] == b;
  }

  /** `sep.join(pieces)`. */
  function Join(pieces: seq<string>, sep: string): string
    decreases |pieces|
  {
    if |pieces| == 0 then ""
    else if |pieces| == 1 then pieces[0]
    else pieces[0] + sep + Join(pieces[1..], sep)
  }

  /** Joining a piece in front of other pieces. */
  lemma JoinCons(piece: string, pieces: seq<string>, sep: string)
    requires |pieces| > 0
    ensures Join([piece] + pieces, sep) == piece + sep + Join(pieces, sep)
  {
    assert ([piece] + pieces)[1..] == pieces;
  }

  /** Splitting on `sep` and joining with `repl` is exactly `replace(sep, repl)`. */
  lemma {:induction false} SplitJoinIsReplace(s: string, sep: string, repl: string)
    requires |sep| > 0
    ensures Join(Split(s, sep), repl) == Replace(s, sep, repl)
    decreases |s|
  {
    match Find(s, sep)
    case None =>
    case Some(i) =>
      var tail := s[i + |sep|..];
      SplitJoinIsReplace(tail, sep, repl);
      JoinCons(s[..i], Split(tail, sep), repl);
  }

  /** Replacing a pattern by itself changes nothing. */
  lemma {:induction false} ReplaceBySelf(s: string, target: string)
    requires |target| > 0
    ensures Replace(s, target, target) == s
    decreases |s|
  {
    match Find(s, target)
    case None =>
    case Some(i) =>
      var tail := s[i + |target|..];
      ReplaceBySelf(tail, target);
      FindOccurs(s, target);
      assert s == s[..i] + s[i..i + |target|] + tail;
  }

  /** The round trip of `split`: `sep.join(s.split(sep)) == s`. */
  lemma SplitJoinRoundTrip(s: string, sep: string)
    requires |sep| > 0
    ensures Join(Split(s, sep), sep) == s
  {
    SplitJoinIsReplace(s, sep, sep);
    ReplaceBySelf(s, sep);
  }

  /** `split` yields a single piece exactly when the separator does not occur. */
  lemma SplitOnePieceIff(s: string, sep: string)
    requires |sep| > 0
    ensures |Split(s, sep)| == 1 <==> !Contains(s, sep)
  {
  }

  /** A string that has no occurrence before index `i` has none in its prefix of length `i`. */
  lemma NoneInPrefix(s: string, sub: string, i: nat)
    requires |sub| > 0 && i <= |s|
    requires forall j :: 0 <= j < i ==> !OccursAt(s, sub, j)
    ensures !Contains(s[..i], sub)
  {
    FindIsFirstOccurrence(s[..i], sub);
    forall j | OccursAt(s[..i], sub, j) ensures false {
      assert s[..i][j..j + |sub|] == s[j..j + |sub|];
      assert OccursAt(s, sub, j);
    }
  }

  /** `s.split(sep)[0]`: the text before the first occurrence of `sep`, or all of `s`. */
  function SplitFirst(s: string, sep: string): (r: string)
    requires |sep| > 0
    ensures r <= s && !Contains(r, sep)
    ensures Contains(s, sep) ==> Find(s, sep) == Some(|r|)
    ensures !Contains(s, sep) ==> r == s
  {
    FindIsFirstOccurrence(s, sep);
    if Contains(s, sep) then
      NoneInPrefix(s, sep, Find(s, sep).value);
      Split(s, sep)[0]
    else
      Split(s, sep)[0]
  }

  /** Splitting at a single character: the first piece stops right before the first
      occurrence of the character, and is all of `s` when there is none. */
  lemma SplitFirstChar(s: string, c: char)
    ensures var r := SplitFirst(s, [c]);
      && (c in s ==> |r| < |s| && s[|r|] == c)
      && (c !in s ==> r == s)
  {
    var r := SplitFirst(s, [c]);
    ContainsChar(s, c);
    FindOccurs(s, [c]);
    if c in s {
      assert s[|r|..|r| + 1] == [c];
    }
  }

  /** `''.join(s.split(sep)[1:])`: the text after the first occurrence of `sep` with every
      further occurrence removed, and the empty string when `sep` does not occur. */
  lemma JoinAfterFirst(s: string, sep: string)
    requires |sep| > 0
    ensures Find(s, sep).None? ==> Join(Split(s, sep)[1..], "") == ""
    ensures Find(s, sep).Some? ==>
      Join(Split(s, sep)[1..], "") == Replace(s[Find(s, sep).value + |sep|..], sep, "")
  {
    var pieces := Split(s, sep);
    match Find(s, sep)
    case None =>
      assert pieces[1..] == [];
    case Some(i) =>
      var tail := s[i + |sep|..];
      assert pieces[1..] == Split(tail, sep);
      SplitJoinIsReplace(tail, sep, "");
  }

  /** `t` is a suffix of `s`. */
  predicate EndsWith(s: string, t: string) {
    |t| <= |s| && s[|s| - |t|..] == t
  }

  lemma EndsWithTransitive(s: string, t: string, u: string)
    requires EndsWith(s, t) && EndsWith(t, u)
    ensures EndsWith(s, u)
  {
    assert s[|s| - |u|..] == t[|t| - |u|..];
  }

  /** The text after an occurrence is a suffix of `s`, and so is the occurrence followed by it. */
  lemma AfterOccurrence(s: string, sep: string, i: int)
    requires OccursAt(s, sep, i)
    ensures EndsWith(s, s[i + |sep|..]) && EndsWith(s, sep + s[i + |sep|..])
  {
    var t := s[i + |sep|..];
    assert s[i..] == s[i..i + |sep|] + t;
  }

  /** `s.split(sep)[-1]`. */
  function SplitLast(s: string, sep: string): string
    requires |sep| > 0
  {
    var pieces := Split(s, sep);
    pieces[|pieces| - 1]
  }

  /** The last piece of `split` is the text after the last occurrence that `split` cuts at
      (the last occurrence, for a separator that cannot overlap itself), or all of `s` when
      `sep` does not occur: a suffix of `s` without `sep`, right after an occurrence. */
  lemma {:induction false} SplitLastIsSuffix(s: string, sep: string)
    requires |sep| > 0
    ensures var r := SplitLast(s, sep);
      && EndsWith(s, r) && !Contains(r, sep)
      && (Contains(s, sep) ==> EndsWith(s, sep + r))
      && (!Contains(s, sep) ==> r == s)
    decreases |s|
  {
    match Find(s, sep)
    case None =>
    case Some(i) =>
      var t := s[i + |sep|..];
      var r := SplitLast(t, sep);
      assert SplitLast(s, sep) == r by {
        var pieces, tail := Split(s, sep), Split(t, sep);
        assert pieces == [s[..i]] + tail;
        assert pieces[|pieces| - 1] == tail[|tail| - 1];
      }
      SplitLastIsSuffix(t, sep);
      assert EndsWith(s, t) && EndsWith(s, sep + t) by {
        FindOccurs(s, sep);
        AfterOccurrence(s, sep, i);
      }
      EndsWithTransitive(s, t, r);
      if Contains(t, sep) {
        EndsWithTransitive(s, t, sep + r);
      }
  }

  /** A character of `string.printable`: ASCII digits, letters, punctuation and
      the whitespace " \t\n\r\x0b\x0c". */
  predicate IsPrintable(c: char) {
    (' ' <= c <= '~') || ('\t' <= c <= '\r')
  }

  /** `''.join(filter(lambda x: x in set(string.printable), s))`: the printable characters
      of `s`, in order. */
  function FilterPrintable(s: string): (r: string)
    ensures |r| <= |s|
    ensures forall k :: 0 <= k < |r| ==> IsPrintable(r[k])
    decreases |s|
  {
    if |s| == 0 then ""
    else
      var rest := FilterPrintable(s[1..]);
      if IsPrintable(s[0]) then [s[0]] + rest else rest
  }

  /** The filter returns only printable characters of `s` and keeps every printable character
      of `s` at least once; a string that is printable throughout comes back unchanged. Order
      and repetitions are fixed by `FilterPrintableSingle` and `FilterPrintableConcat`. */
  lemma {:induction false} FilterPrintableKeeps(s: string)
    ensures forall c :: c in FilterPrintable(s) ==> IsPrintable(c) && c in s
    ensures forall c :: c in s && IsPrintable(c) ==> c in FilterPrintable(s)
    ensures (forall k :: 0 <= k < |s| ==> IsPrintable(s[k])) ==> FilterPrintable(s) == s
    decreases |s|
  {
    if |s| > 0 {
      var tail := s[1..];
      FilterPrintableKeeps(tail);
      assert s == [s[0]] + tail;
      if forall k :: 0 <= k < |s| ==> IsPrintable(s[k]) {
        assert forall k :: 0 <= k < |tail| ==> IsPrintable(tail[k]) by {
          forall k | 0 <= k < |tail| ensures IsPrintable(tail[k]) {
            assert tail[k] == s[k + 1];
          }
        }
      }
    }
  }

  /** The filter keeps each character by itself: a printable one stays, any other goes. */
  lemma FilterPrintableSingle(c: char)
    ensures FilterPrintable([c]) == if IsPrintable(c) then [c] else []
  {
    assert [c][1..] == [];
  }

  /** Filtering a concatenation filters each part and keeps them in order; with
      `FilterPrintableSingle` this fixes the result character by character, order and
      repetitions included. */
  lemma {:induction false} FilterPrintableConcat(a: string, b: string)
    ensures FilterPrintable(a + b) == FilterPrintable(a) + FilterPrintable(b)
    decreases |a|
  {
    if |a| == 0 {
      assert a + b == b;
    } else {
      assert (a + b)[0] == a[0] && (a + b)[1..] == a[1..] + b;
      FilterPrintableConcat(a[1..], b);
    }
  }

  /** Filtering twice keeps what filtering once keeps. */
  lemma FilterPrintableIdempotent(s: string)
    ensures FilterPrintable(FilterPrintable(s)) == FilterPrintable(s)
  {
    FilterPrintableKeeps(FilterPrintable(s));
  }
}
