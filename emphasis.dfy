/** The inline emphasis passes both renderers apply to bullet items, numbered-item
    text and paragraphs: first every `**x**` becomes a strong span, then every `*x*`
    in the result becomes an emphasis span (two chained global `replace` calls with
    lazy patterns, the double-asterisk one first). Spans are written as bare `<strong>`/`<em>` tags;
    the class attributes the two views put on them are not modelled. */
module Emphasis {
  import opened Text

  /** `w` asterisks (the delimiter: two in pass 1, one in pass 2) start at position `j` of `s`. */
  predicate StarsAt(s: string, j: nat, w: nat)
    requires 1 <= w <= 2
  {
    j + w <= |s| && s[j] == '*' && s[j + w - 1] == '*'
  }

  /** No character of `s[i..j]` is a line terminator, so `.` can match all of them. */
  predicate PlainBetween(s: string, i: nat, j: nat)
    requires j <= |s|
  {
    forall m :: i <= m < j ==> !IsLineTerminator(s[m])
  }

  /** The lazy `(.*?)` followed by the closing delimiter, tried from position `i`: the
      position of a closing delimiter (`FindCloseIsFirst` says which one), or None when the
      regular expression fails at this start. */
  function FindClose(s: string, w: nat, i: nat): (r: Option<nat>)
    requires 1 <= w <= 2 && i <= |s|
    ensures r.Some? ==> i <= r.value && StarsAt(s, r.value, w)
    decreases |s| - i
  {
    if StarsAt(s, i, w) then Some(i)
    else if i == |s| || IsLineTerminator(s[i]) then None
    else FindClose(s, w, i + 1)
  }

  /** The closing delimiter found is the first one at or after `i`, and no line terminator
      (which `.` does not match) lies before it; the search fails exactly when every
      delimiter at or after `i` has a line terminator in front of it. */
  lemma {:induction false} FindCloseIsFirst(s: string, w: nat, i: nat)
    requires 1 <= w <= 2 && i <= |s|
    ensures FindClose(s, w, i).Some? ==>
      var k := FindClose(s, w, i).value;
      PlainBetween(s, i, k) && forall j :: i <= j < k ==> !StarsAt(s, j, w)
    ensures FindClose(s, w, i).None? ==>
      forall j :: i <= j <= |s| && StarsAt(s, j, w) ==> !PlainBetween(s, i, j)
    decreases |s| - i
  {
    if StarsAt(s, i, w) {
    } else if i == |s| {
    } else if IsLineTerminator(s[i]) {
      assert forall j :: i < j <= |s| ==> !PlainBetween(s, i, j);
    } else {
      FindCloseIsFirst(s, w, i + 1);
      assert forall j :: i + 1 <= j <= |s| && PlainBetween(s, i, j) ==> PlainBetween(s, i + 1, j);
    }
  }

  function Open(tag: string): string { "<" + tag + ">" }

  function Close(tag: string): string { "</" + tag + ">" }

  /** One global `String.prototype.replace` whose pattern is the delimiter, a lazy
      `(.*?)` and the delimiter again, applied to `s[i..]`: scanning left to right, each
      match becomes `<tag>` + the text between the delimiters + `</tag>` and scanning
      resumes after the match; where no match starts, the character is kept. */
  function Replace(s: string, w: nat, tag: string, i: nat): (r: string)
    requires 1 <= w <= 2 && i <= |s|
    ensures |r| >= |s| - i
    decreases |s| - i
  {
    if i == |s| then []
    else
      match (if StarsAt(s, i, w) then FindClose(s, w, i + w) else None)
      case Some(k) => Open(tag) + s[i + w..k] + Close(tag) + Replace(s, w, tag, k + w)
      case None => [s[i]] + Replace(s, w, tag, i + 1)
  }

  /** Pass 1: `**x**` becomes a strong span. */
  function Strong(s: string): string {
    Replace(s, 2, "strong", 0)
  }

  /** Pass 2: `*x*` becomes an emphasis span. */
  function Em(s: string): string {
    Replace(s, 1, "em", 0)
  }

  /** Both passes, strong first; tags are never shorter than the delimiters they replace. */
  function Emph(s: string): (r: string)
    ensures |r| >= |s|
  {
    Em(Strong(s))
  }

  /** Text without any `*` passes through both passes unchanged. */
  lemma NoAsteriskUnchanged(s: string)
    requires '*' !in s
    ensures Emph(s) == s
  {
    StarFreeIdentity(s, 2, "strong");
    StarFreeIdentity(s, 1, "em");
  }

  lemma NoLineTerminatorConcat(a: string, b: string)
    ensures NoLineTerminator(a + b) <==> NoLineTerminator(a) && NoLineTerminator(b)
  {
    if NoLineTerminator(a) && NoLineTerminator(b) {
      forall k | 0 <= k < |a + b| ensures !IsLineTerminator((a + b)[k]) {
        if k >= |a| { assert (a + b)[k] == b[k - |a|]; }
      }
    }
    if NoLineTerminator(a + b) {
      forall k | 0 <= k < |a| ensures !IsLineTerminator(a[k]) {
        assert (a + b)[k] == a[k];
      }
      forall k | 0 <= k < |b| ensures !IsLineTerminator(b[k]) {
        assert (a + b)[|a| + k] == b[k];
      }
    }
  }

  /** Text without line terminators still has none after a pass: the tags are plain
      ASCII and everything else is copied from the input. */
  lemma {:induction false} ReplaceKeepsLines(s: string, w: nat, tag: string, i: nat)
    requires 1 <= w <= 2 && i <= |s| && NoLineTerminator(s) && NoLineTerminator(tag)
    ensures NoLineTerminator(Replace(s, w, tag, i))
    decreases |s| - i
  {
    if i == |s| {
    } else if StarsAt(s, i, w) && FindClose(s, w, i + w).Some? {
      match FindClose(s, w, i + w)
      case Some(k) =>
        ReplaceKeepsLines(s, w, tag, k + w);
        MatchKeepsLines(s, w, tag, i, k);
    } else {
      ReplaceKeepsLines(s, w, tag, i + 1);
      ReplaceCopy(s, w, tag, i);
      CopyLines(s[i], Replace(s, w, tag, i + 1), Replace(s, w, tag, i));
    }
  }

  /** The step at a match: the tags and the copied text between the delimiters. */
  lemma MatchKeepsLines(s: string, w: nat, tag: string, i: nat, k: nat)
    requires 1 <= w <= 2 && i <= |s| && NoLineTerminator(s) && NoLineTerminator(tag)
    requires StarsAt(s, i, w) && FindClose(s, w, i + w) == Some(k)
    requires NoLineTerminator(Replace(s, w, tag, k + w))
    ensures NoLineTerminator(Replace(s, w, tag, i))
  {
    ReplaceMatch(s, w, tag, i, k);
    SliceLines(s, i + w, k);
    MatchLines(s[i + w..k], tag, Replace(s, w, tag, k + w), Replace(s, w, tag, i));
  }

  lemma SliceLines(s: string, i: nat, j: nat)
    requires i <= j <= |s| && NoLineTerminator(s)
    ensures NoLineTerminator(s[i..j])
  {
    var t := s[i..j];
    forall m | 0 <= m < |t| ensures !IsLineTerminator(t[m]) {
      assert t[m] == s[i + m];
    }
  }

  lemma MatchLines(mid: string, tag: string, rest: string, out: string)
    requires NoLineTerminator(mid) && NoLineTerminator(tag) && NoLineTerminator(rest)
    requires out == Open(tag) + mid + Close(tag) + rest
    ensures NoLineTerminator(out)
  {
    NoLineTerminatorConcat("<", tag);
    NoLineTerminatorConcat("<" + tag, ">");
    NoLineTerminatorConcat("</", tag);
    NoLineTerminatorConcat("</" + tag, ">");
    NoLineTerminatorConcat(Open(tag), mid);
    NoLineTerminatorConcat(Open(tag) + mid, Close(tag));
    NoLineTerminatorConcat(Open(tag) + mid + Close(tag), rest);
  }

  lemma CopyLines(c: char, rest: string, out: string)
    requires !IsLineTerminator(c) && NoLineTerminator(rest) && out == [c] + rest
    ensures NoLineTerminator(out)
  {
    NoLineTerminatorConcat([c], rest);
  }

  /** The tags themselves hold no asterisk. */
  lemma TagsStarFree(tag: string)
    requires '*' !in tag
    ensures Occurrences('*', Open(tag)) == 0 && Occurrences('*', Close(tag)) == 0
  {
    assert '*' !in Open(tag) && '*' !in Close(tag);
    OccurrencesNone('*', Open(tag));
    OccurrencesNone('*', Close(tag));
  }

  /** Unfolding a pass at a position where a match starts. */
  lemma ReplaceMatch(s: string, w: nat, tag: string, i: nat, k: nat)
    requires 1 <= w <= 2 && i <= |s| && StarsAt(s, i, w) && FindClose(s, w, i + w) == Some(k)
    ensures Replace(s, w, tag, i) == Open(tag) + s[i + w..k] + Close(tag) + Replace(s, w, tag, k + w)
  {
  }

  /** Unfolding a pass at a position where no match starts. */
  lemma ReplaceCopy(s: string, w: nat, tag: string, i: nat)
    requires 1 <= w <= 2 && i < |s| && !(StarsAt(s, i, w) && FindClose(s, w, i + w).Some?)
    ensures Replace(s, w, tag, i) == [s[i]] + Replace(s, w, tag, i + 1)
  {
  }

  /** A match with star-free tags counts only what is between and after the delimiters. */
  lemma MatchCount(tag: string, mid: string, rest: string)
    requires '*' !in tag
    ensures Occurrences('*', Open(tag) + mid + Close(tag) + rest)
         == Occurrences('*', mid) + Occurrences('*', rest)
  {
    TagsStarFree(tag);
    OccurrencesConcat('*', Open(tag), mid);
    OccurrencesConcat('*', Open(tag) + mid, Close(tag));
    OccurrencesConcat('*', Open(tag) + mid + Close(tag), rest);
  }

  /** The input side of a match: opening delimiter, text, closing delimiter, the rest. */
  lemma SourceCount(s: string, w: nat, i: nat, k: nat)
    requires 1 <= w <= 2 && i + w <= k && StarsAt(s, i, w) && StarsAt(s, k, w)
    ensures Occurrences('*', s[i..]) == 2 * w + Occurrences('*', s[i + w..k]) + Occurrences('*', s[k + w..])
  {
    assert s[i..] == s[i..i + w] + (s[i + w..k] + (s[k..k + w] + s[k + w..]));
    DelimiterCount(s, i, w);
    DelimiterCount(s, k, w);
    OccurrencesConcat('*', s[k..k + w], s[k + w..]);
    OccurrencesConcat('*', s[i + w..k], s[k..k + w] + s[k + w..]);
    OccurrencesConcat('*', s[i..i + w], s[i + w..k] + (s[k..k + w] + s[k + w..]));
  }

  /** The input side of a copied character. */
  lemma HeadCount(s: string, i: nat)
    requires i < |s|
    ensures Occurrences('*', s[i..]) == Occurrences('*', [s[i]]) + Occurrences('*', s[i + 1..])
  {
    assert s[i..] == [s[i]] + s[i + 1..];
    OccurrencesConcat('*', [s[i]], s[i + 1..]);
  }

  /** The delimiter itself contributes `w` asterisks. */
  lemma DelimiterCount(s: string, j: nat, w: nat)
    requires 1 <= w <= 2 && StarsAt(s, j, w)
    ensures Occurrences('*', s[j..j + w]) == w
  {
    if w == 1 {
      assert s[j..j + w] == [s[j]];
    } else {
      assert s[j..j + w] == [s[j]] + [s[j + 1]];
      OccurrencesConcat('*', [s[j]], [s[j + 1]]);
    }
  }

  /** Without line terminators, a failed search for a single closing `*` means there is
      no `*` left at all. */
  lemma NoCloseNoStar(s: string, i: nat)
    requires i <= |s| && NoLineTerminator(s) && FindClose(s, 1, i).None?
    ensures forall j :: i <= j < |s| ==> !StarsAt(s, j, 1)
    ensures '*' !in s[i..]
  {
    FindCloseIsFirst(s, 1, i);
    forall j | i <= j < |s| ensures !StarsAt(s, j, 1) {
      assert PlainBetween(s, i, j);
    }
    forall j | i <= j < |s| ensures s[j] != '*' {
      assert !StarsAt(s, j, 1);
    }
  }

  /** The text inside a single-asterisk match holds no `*`. */
  lemma BeforeCloseNoStar(s: string, i: nat, k: nat)
    requires i <= |s| && FindClose(s, 1, i) == Some(k)
    ensures '*' !in s[i..k]
  {
    FindCloseIsFirst(s, 1, i);
    forall j | i <= j < k ensures s[j] != '*' {
      assert !StarsAt(s, j, 1);
    }
  }

  /** What a successful search promises, for a named position `k`. */
  lemma CloseAt(s: string, w: nat, i: nat, k: nat)
    requires 1 <= w <= 2 && i <= |s| && FindClose(s, w, i) == Some(k)
    ensures i <= k && k + w <= |s| && StarsAt(s, k, w)
  {
  }

  /** The text inside a single-asterisk match counts no asterisk. */
  lemma InsideCount(s: string, i: nat, k: nat)
    requires i <= |s| && FindClose(s, 1, i) == Some(k)
    ensures i <= k <= |s| && Occurrences('*', s[i..k]) == 0
  {
    CloseAt(s, 1, i, k);
    BeforeCloseNoStar(s, i, k);
    OccurrencesNone('*', s[i..k]);
  }

  /** Removing an even number of asterisks keeps the parity. */
  lemma ParityArith(w: nat, x: nat, y: nat, y': nat)
    requires y % 2 == y' % 2
    ensures (2 * w + x + y) % 2 == (x + y') % 2
  {
  }

  /** The parity step at a match, over abstract strings: `out` is the unfolded output
      and `rk` the output of the rest of the pass. */
  lemma ParityAtMatch(s: string, w: nat, tag: string, i: nat, k: nat, out: string, rk: string)
    requires 1 <= w <= 2 && '*' !in tag
    requires i + w <= k && StarsAt(s, i, w) && StarsAt(s, k, w)
    requires out == Open(tag) + s[i + w..k] + Close(tag) + rk
    requires Occurrences('*', rk) % 2 == Occurrences('*', s[k + w..]) % 2
    ensures Occurrences('*', out) % 2 == Occurrences('*', s[i..]) % 2
  {
    MatchCount(tag, s[i + w..k], rk);
    SourceCount(s, w, i, k);
    ParityArith(w, Occurrences('*', s[i + w..k]), Occurrences('*', s[k + w..]), Occurrences('*', rk));
  }

  /** The counting step at a copied character, over abstract strings. */
  lemma CountAtCopy(s: string, i: nat, out: string, r1: string)
    requires i < |s| && out == [s[i]] + r1
    ensures Occurrences('*', out) == Occurrences('*', [s[i]]) + Occurrences('*', r1)
    ensures Occurrences('*', s[i..]) == Occurrences('*', [s[i]]) + Occurrences('*', s[i + 1..])
  {
    OccurrencesConcat('*', [s[i]], r1);
    HeadCount(s, i);
  }

  /** A pass over `s[i..]` leaves as many asterisks as there were, up to an even number. */
  predicate KeepsParity(s: string, w: nat, tag: string, i: nat)
    requires 1 <= w <= 2 && i <= |s|
  {
    Occurrences('*', Replace(s, w, tag, i)) % 2 == Occurrences('*', s[i..]) % 2
  }

  lemma MatchKeepsParity(s: string, w: nat, tag: string, i: nat, k: nat)
    requires 1 <= w <= 2 && i <= |s| && '*' !in tag
    requires StarsAt(s, i, w) && FindClose(s, w, i + w) == Some(k)
    requires KeepsParity(s, w, tag, k + w)
    ensures KeepsParity(s, w, tag, i)
  {
    ReplaceMatch(s, w, tag, i, k);
    ParityAtMatch(s, w, tag, i, k, Replace(s, w, tag, i), Replace(s, w, tag, k + w));
  }

  lemma CopyKeepsParity(s: string, w: nat, tag: string, i: nat)
    requires 1 <= w <= 2 && i < |s|
    requires !(StarsAt(s, i, w) && FindClose(s, w, i + w).Some?)
    requires KeepsParity(s, w, tag, i + 1)
    ensures KeepsParity(s, w, tag, i)
  {
    ReplaceCopy(s, w, tag, i);
    CountAtCopy(s, i, Replace(s, w, tag, i), Replace(s, w, tag, i + 1));
  }

  /** Each match removes two delimiters, an even number of asterisks, and the tags add
      none: a pass keeps the parity of the number of asterisks. */
  lemma {:induction false} ReplaceParity(s: string, w: nat, tag: string, i: nat)
    requires 1 <= w <= 2 && i <= |s| && '*' !in tag
    ensures KeepsParity(s, w, tag, i)
    decreases |s| - i
  {
    if i == |s| {
      assert Replace(s, w, tag, i) == [] && s[i..] == [];
    } else if StarsAt(s, i, w) && FindClose(s, w, i + w).Some? {
      var k := FindClose(s, w, i + w).value;
      ReplaceParity(s, w, tag, k + w);
      MatchKeepsParity(s, w, tag, i, k);
    } else {
      ReplaceParity(s, w, tag, i + 1);
      CopyKeepsParity(s, w, tag, i);
    }
  }

  /** The single-asterisk step at a match whose text holds no asterisk. */
  lemma SingleAtMatch(s: string, tag: string, i: nat, k: nat, out: string, rk: string)
    requires '*' !in tag && i < |s| && s[i] == '*' && FindClose(s, 1, i + 1) == Some(k)
    requires out == Open(tag) + s[i + 1..k] + Close(tag) + rk
    requires Occurrences('*', rk) == Occurrences('*', s[k + 1..]) % 2
    ensures Occurrences('*', out) == Occurrences('*', s[i..]) % 2
  {
    CloseAt(s, 1, i + 1, k);
    InsideCount(s, i + 1, k);
    MatchCount(tag, s[i + 1..k], rk);
    SourceCount(s, 1, i, k);
    PairArith(Occurrences('*', s[i..]), Occurrences('*', s[k + 1..]), Occurrences('*', out));
  }

  /** Two asterisks fewer leave the parity as it was. */
  lemma PairArith(x: nat, y: nat, r: nat)
    requires x == 2 + y && r == y % 2
    ensures r == x % 2
  {
  }

  /** The single-asterisk step at an asterisk with no asterisk after it. */
  lemma SingleAtLast(s: string, i: nat, out: string)
    requires i < |s| && s[i] == '*' && '*' !in s[i + 1..]
    requires out == [s[i]] + s[i + 1..]
    ensures Occurrences('*', out) == Occurrences('*', s[i..]) % 2
  {
    OccurrencesNone('*', s[i + 1..]);
    CountAtCopy(s, i, out, s[i + 1..]);
  }

  /** The one-asterisk pass from `i` leaves (asterisks in `s[i..]`) mod 2 asterisks. */
  predicate HalvesStars(s: string, tag: string, i: nat)
    requires i <= |s|
  {
    Occurrences('*', Replace(s, 1, tag, i)) == Occurrences('*', s[i..]) % 2
  }

  /** The step at an asterisk that has no partner. */
  lemma LastKeepsHalf(s: string, tag: string, i: nat)
    requires i < |s| && s[i] == '*' && NoLineTerminator(s)
    requires FindClose(s, 1, i + 1).None?
    ensures HalvesStars(s, tag, i)
  {
    assert StarsAt(s, i, 1);
    NoCloseNoStar(s, i + 1);
    ReplaceIdentity(s, 1, tag, i + 1);
    ReplaceCopy(s, 1, tag, i);
    SingleAtLast(s, i, Replace(s, 1, tag, i));
  }

  /** The step at an asterisk whose partner is at `k`. */
  lemma MatchKeepsHalf(s: string, tag: string, i: nat, k: nat)
    requires i < |s| && s[i] == '*' && '*' !in tag
    requires FindClose(s, 1, i + 1) == Some(k)
    requires HalvesStars(s, tag, k + 1)
    ensures HalvesStars(s, tag, i)
  {
    assert StarsAt(s, i, 1);
    ReplaceMatch(s, 1, tag, i, k);
    SingleAtMatch(s, tag, i, k, Replace(s, 1, tag, i), Replace(s, 1, tag, k + 1));
  }

  /** The step at any other character. */
  lemma CopyKeepsHalf(s: string, tag: string, i: nat)
    requires i < |s| && s[i] != '*'
    requires HalvesStars(s, tag, i + 1)
    ensures HalvesStars(s, tag, i)
  {
    ReplaceCopy(s, 1, tag, i);
    CountAtCopy(s, i, Replace(s, 1, tag, i), Replace(s, 1, tag, i + 1));
  }

  /** Without line terminators the one-asterisk pass pairs up every asterisk from left to
      right: one is left over exactly when their number is odd. */
  lemma {:induction false} SingleParity(s: string, tag: string, i: nat)
    requires i <= |s| && NoLineTerminator(s) && '*' !in tag
    ensures HalvesStars(s, tag, i)
    decreases |s| - i
  {
    if i == |s| {
      assert Replace(s, 1, tag, i) == [] && s[i..] == [];
    } else if s[i] == '*' {
      match FindClose(s, 1, i + 1)
      case None =>
        LastKeepsHalf(s, tag, i);
      case Some(k) =>
        SingleParity(s, tag, k + 1);
        MatchKeepsHalf(s, tag, i, k);
    } else {
      SingleParity(s, tag, i + 1);
      CopyKeepsHalf(s, tag, i);
    }
  }

  /** A line without `'\r'`, U+2028 or U+2029 keeps exactly (number of `*`) mod 2 asterisks. */
  lemma AsteriskParity(s: string)
    requires NoLineTerminator(s)
    ensures Occurrences('*', Emph(s)) == Occurrences('*', s) % 2
  {
    var t := Strong(s);
    ReplaceParity(s, 2, "strong", 0);
    assert KeepsParity(s, 2, "strong", 0);
    ReplaceKeepsLines(s, 2, "strong", 0);
    SingleParity(t, "em", 0);
    assert HalvesStars(t, "em", 0);
    assert s[0..] == s;
    assert t[0..] == t;
    assert Emph(s) == Replace(t, 1, "em", 0);
  }

  /** Star-free text is left unchanged by a pass. */
  lemma StarFreeIdentity(t: string, w: nat, tag: string)
    requires 1 <= w <= 2 && '*' !in t
    ensures Replace(t, w, tag, 0) == t
  {
    forall j | 0 <= j < |t| ensures !StarsAt(t, j, w) {
      assert t[j] in t;
    }
    ReplaceIdentity(t, w, tag, 0);
    assert t[0..] == t;
  }

  /** No asterisk in `s[i..j]`. */
  predicate NoStarBetween(s: string, i: nat, j: nat)
    requires j <= |s|
  {
    forall m :: i <= m < j ==> s[m] != '*'
  }

  /** A stretch without asterisks is copied as it is. */
  lemma {:induction false} CopyPlain(s: string, w: nat, tag: string, i: nat, j: nat)
    requires 1 <= w <= 2 && i <= j <= |s| && NoStarBetween(s, i, j)
    ensures Replace(s, w, tag, i) == s[i..j] + Replace(s, w, tag, j)
    decreases j - i
  {
    if i < j {
      NoStarHead(s, i, j);
      CopyPlain(s, w, tag, i + 1, j);
      ReplaceCopy(s, w, tag, i);
      ConsSlice(s, i, j, Replace(s, w, tag, i), Replace(s, w, tag, i + 1), Replace(s, w, tag, j));
    }
  }

  lemma NoStarHead(s: string, i: nat, j: nat)
    requires i < j <= |s| && NoStarBetween(s, i, j)
    ensures s[i] != '*' && NoStarBetween(s, i + 1, j)
  {
  }

  lemma ConsSlice(s: string, i: nat, j: nat, out: string, r1: string, rj: string)
    requires i < j <= |s| && out == [s[i]] + r1 && r1 == s[i + 1..j] + rj
    ensures out == s[i..j] + rj
  {
    assert s[i..j] == [s[i]] + s[i + 1..j];
  }

  /** The search for a closing delimiter runs over text without asterisks or line terminators. */
  lemma {:induction false} FindSkip(s: string, w: nat, i: nat, j: nat)
    requires 1 <= w <= 2 && i <= j <= |s|
    requires NoStarBetween(s, i, j) && PlainBetween(s, i, j)
    ensures FindClose(s, w, i) == FindClose(s, w, j)
    decreases j - i
  {
    if i < j {
      FindSkip(s, w, i + 1, j);
    }
  }

  /** One span, with star-free text around it: the pass replaces exactly that span. */
  lemma PassSpan(s: string, w: nat, tag: string, p: nat, q: nat)
    requires 1 <= w <= 2 && p + w <= q && q + w <= |s|
    requires StarsAt(s, p, w) && StarsAt(s, q, w)
    requires NoStarBetween(s, 0, p) && NoStarBetween(s, q + w, |s|)
    requires NoStarBetween(s, p + w, q) && PlainBetween(s, p + w, q)
    ensures Replace(s, w, tag, 0) == s[..p] + Open(tag) + s[p + w..q] + Close(tag) + s[q + w..]
  {
    HeadPlain(s, w, tag, p);
    MatchThenPlain(s, w, tag, p, q);
    SpanShape(Replace(s, w, tag, 0), s[..p], Replace(s, w, tag, p), Open(tag), s[p + w..q], Close(tag),
      s[q + w..]);
  }

  /** From the opening delimiter on: the span, then the star-free rest copied. */
  lemma MatchThenPlain(s: string, w: nat, tag: string, p: nat, q: nat)
    requires 1 <= w <= 2 && p + w <= q && q + w <= |s|
    requires StarsAt(s, p, w) && StarsAt(s, q, w)
    requires NoStarBetween(s, q + w, |s|)
    requires NoStarBetween(s, p + w, q) && PlainBetween(s, p + w, q)
    ensures Replace(s, w, tag, p) == Open(tag) + s[p + w..q] + Close(tag) + s[q + w..]
  {
    MatchAtSpan(s, w, tag, p, q);
    TailPlain(s, w, tag, q + w);
  }

  lemma HeadPlain(s: string, w: nat, tag: string, p: nat)
    requires 1 <= w <= 2 && p <= |s| && NoStarBetween(s, 0, p)
    ensures Replace(s, w, tag, 0) == s[..p] + Replace(s, w, tag, p)
  {
    CopyPlain(s, w, tag, 0, p);
    assert s[0..p] == s[..p];
  }

  lemma MatchAtSpan(s: string, w: nat, tag: string, p: nat, q: nat)
    requires 1 <= w <= 2 && p + w <= q && q + w <= |s|
    requires StarsAt(s, p, w) && StarsAt(s, q, w)
    requires NoStarBetween(s, p + w, q) && PlainBetween(s, p + w, q)
    ensures Replace(s, w, tag, p) == Open(tag) + s[p + w..q] + Close(tag) + Replace(s, w, tag, q + w)
  {
    FindSkip(s, w, p + w, q);
    assert FindClose(s, w, q) == Some(q);
    ReplaceMatch(s, w, tag, p, q);
  }

  lemma TailPlain(s: string, w: nat, tag: string, j: nat)
    requires 1 <= w <= 2 && j <= |s| && NoStarBetween(s, j, |s|)
    ensures Replace(s, w, tag, j) == s[j..]
  {
    CopyPlain(s, w, tag, j, |s|);
    assert s[j..|s|] == s[j..];
    assert Replace(s, w, tag, |s|) == [];
  }

  lemma SpanShape(out: string, pre: string, rp: string, o: string, mid: string, c: string, post: string)
    requires out == pre + rp && rp == o + mid + c + post
    ensures out == pre + o + mid + c + post
  {
  }

  /** The same, for text written as star-free text, a delimiter `d`, star-free text on one
      line, `d` again and star-free text. */
  lemma PassOnSpan(a: string, d: string, x: string, b: string, w: nat, tag: string)
    requires 1 <= w <= 2 && |d| == w && d[0] == '*' && d[w - 1] == '*'
    requires '*' !in a && '*' !in x && '*' !in b && NoLineTerminator(x)
    ensures Replace(a + d + x + d + b, w, tag, 0) == a + Open(tag) + x + Close(tag) + b
  {
    var s := a + d + x + d + b;
    var p := |a|;
    var q := p + w + |x|;
    assert s[..p] == a && s[p + w..q] == x && s[q + w..] == b;
    forall m | 0 <= m < p ensures s[m] != '*' { assert s[m] == a[m]; assert a[m] in a; }
    forall m | p + w <= m < q ensures s[m] != '*' && !IsLineTerminator(s[m]) {
      assert s[m] == x[m - p - w]; assert x[m - p - w] in x;
    }
    forall m | q + w <= m < |s| ensures s[m] != '*' { assert s[m] == b[m - q - w]; assert b[m - q - w] in b; }
    assert s[p] == d[0] && s[p + w - 1] == d[w - 1];
    assert s[q] == d[0] && s[q + w - 1] == d[w - 1];
    PassSpan(s, w, tag, p, q);
  }

  /** With no asterisk left, the search for a closing delimiter fails. */
  lemma {:induction false} FindCloseNone(s: string, w: nat, i: nat)
    requires 1 <= w <= 2 && i <= |s| && NoStarBetween(s, i, |s|)
    ensures FindClose(s, w, i).None?
    decreases |s| - i
  {
    if i < |s| {
      assert s[i] != '*';
      if !IsLineTerminator(s[i]) {
        FindCloseNone(s, w, i + 1);
      }
    }
  }

  /** Where no delimiter opens a match, a pass copies the text unchanged. */
  lemma {:induction false} ReplaceIdentity(s: string, w: nat, tag: string, i: nat)
    requires 1 <= w <= 2 && i <= |s|
    requires forall j :: i <= j < |s| && StarsAt(s, j, w) ==> FindClose(s, w, j + w).None?
    ensures Replace(s, w, tag, i) == s[i..]
    decreases |s| - i
  {
    if i < |s| {
      ReplaceCopy(s, w, tag, i);
      ReplaceIdentity(s, w, tag, i + 1);
      assert s[i..] == [s[i]] + s[i + 1..];
    }
  }

  /** Where `s = a + d + b`, the asterisks of `s` are those of `d`. */
  lemma Around(a: string, d: string, b: string, j: nat)
    requires '*' !in a && '*' !in b && j < |a + d + b|
    ensures (a + d + b)[j] == '*' ==> |a| <= j < |a| + |d| && d[j - |a|] == '*'
  {
    var s := a + d + b;
    if j < |a| { assert s[j] == a[j] && a[j] in a; }
    else if j >= |a| + |d| { assert s[j] == b[j - |a| - |d|]; assert b[j - |a| - |d|] in b; }
  }

  lemma StarFreeAfter(a: string, d: string, b: string)
    requires '*' !in b
    ensures NoStarBetween(a + d + b, |a| + |d|, |a + d + b|)
  {
    var s := a + d + b;
    forall m | |a| + |d| <= m < |s| ensures s[m] != '*' {
      assert s[m] == b[m - |a| - |d|]; assert b[m - |a| - |d|] in b;
    }
  }

  /** A single `*` with no partner is kept as a literal asterisk. */
  lemma LoneAsterisk(a: string, b: string)
    requires '*' !in a && '*' !in b
    ensures Emph(a + "*" + b) == a + "*" + b
  {
    LoneStrong(a, b, "strong");
    LoneEm(a, b, "em");
  }

  lemma LoneStrong(a: string, b: string, tag: string)
    requires '*' !in a && '*' !in b
    ensures Replace(a + "*" + b, 2, tag, 0) == a + "*" + b
  {
    var s := a + "*" + b;
    forall j | 0 <= j < |s| ensures !StarsAt(s, j, 2) {
      Around(a, "*", b, j);
      if j + 1 < |s| { Around(a, "*", b, j + 1); }
    }
    ReplaceIdentity(s, 2, tag, 0);
    assert s[0..] == s;
  }

  lemma LoneEm(a: string, b: string, tag: string)
    requires '*' !in a && '*' !in b
    ensures Replace(a + "*" + b, 1, tag, 0) == a + "*" + b
  {
    var s := a + "*" + b;
    StarFreeAfter(a, "*", b);
    FindCloseNone(s, 1, |a| + 1);
    forall j | 0 <= j < |s| && StarsAt(s, j, 1) ensures FindClose(s, 1, j + 1).None? {
      Around(a, "*", b, j);
    }
    ReplaceIdentity(s, 1, tag, 0);
    assert s[0..] == s;
  }

  lemma StarFreeConcat(a: string, b: string)
    ensures '*' !in a + b <==> '*' !in a && '*' !in b
  {
    if '*' in a + b {
      var j :| 0 <= j < |a + b| && (a + b)[j] == '*';
      if j < |a| { assert a[j] == '*'; } else { assert b[j - |a|] == '*'; }
    }
  }

  /** The tags around a span hold no asterisk, so neither does the span's output. */
  lemma SpanStarFree(a: string, x: string, b: string, tag: string)
    requires '*' !in a && '*' !in x && '*' !in b && '*' !in tag
    ensures '*' !in a + Open(tag) + x + Close(tag) + b
  {
    assert '*' !in Open(tag) && '*' !in Close(tag);
    StarFreeConcat(a, Open(tag));
    StarFreeConcat(a + Open(tag), x);
    StarFreeConcat(a + Open(tag) + x, Close(tag));
    StarFreeConcat(a + Open(tag) + x + Close(tag), b);
  }

  /** `**x**` becomes a strong span. */
  lemma StrongSpan(a: string, x: string, b: string)
    requires '*' !in a && '*' !in x && '*' !in b && NoLineTerminator(x)
    ensures Emph(a + "**" + x + "**" + b) == a + "<strong>" + x + "</strong>" + b
  {
    SpanThenPlain(a, x, b, "strong", "em");
    TagLiterals();
  }

  /** The tags both passes write, spelled out. */
  lemma TagLiterals()
    ensures Open("strong") == "<strong>" && Close("strong") == "</strong>"
    ensures Open("em") == "<em>" && Close("em") == "</em>"
  {
  }

  /** Both passes over one double-asterisk span, for any tags: the first pass tags it and
      the second finds nothing left to do. */
  lemma SpanThenPlain(a: string, x: string, b: string, t1: string, t2: string)
    requires '*' !in a && '*' !in x && '*' !in b && '*' !in t1 && NoLineTerminator(x)
    ensures Replace(Replace(a + "**" + x + "**" + b, 2, t1, 0), 1, t2, 0)
      == a + Open(t1) + x + Close(t1) + b
  {
    PassOnSpan(a, "**", x, b, 2, t1);
    SpanStarFree(a, x, b, t1);
    StarFreeIdentity(a + Open(t1) + x + Close(t1) + b, 1, t2);
  }

  /** The only asterisks of `"*" + x + "*"` with star-free `x` are its ends. */
  lemma FrameStars(x: string, k: nat)
    requires '*' !in x && k < |x| + 2 && ("*" + x + "*")[k] == '*'
    ensures k == 0 || k == |x| + 1
  {
  }

  /** `*x*` becomes an emphasis span; with empty `x` the text is a stray `**`, which the
      strong pass leaves for the emphasis pass. */
  lemma EmSpan(a: string, x: string, b: string)
    requires '*' !in a && '*' !in x && '*' !in b && NoLineTerminator(x)
    ensures Emph(a + "*" + x + "*" + b) == a + "<em>" + x + "</em>" + b
  {
    if x == [] {
      assert a + "*" + x + "*" + b == a + "**" + b;
      EmptyEmphasis(a, b);
    } else {
      PlainThenSpan(a, x, b, "strong", "em");
      TagLiterals();
    }
  }

  /** Both passes over one single-asterisk span with non-empty text, for any tags: the
      first pass finds no double asterisk and the second tags the span. */
  lemma PlainThenSpan(a: string, x: string, b: string, t1: string, t2: string)
    requires '*' !in a && '*' !in x && '*' !in b && NoLineTerminator(x) && x != []
    ensures Replace(Replace(a + "*" + x + "*" + b, 2, t1, 0), 1, t2, 0)
      == a + Open(t2) + x + Close(t2) + b
  {
    NoDoubleStar(a, x, b, t1);
    PassOnSpan(a, "*", x, b, 1, t2);
  }

  /** The first pass leaves `a*x*b` alone when `x` is non-empty and star-free. */
  lemma NoDoubleStar(a: string, x: string, b: string, t1: string)
    requires '*' !in a && '*' !in x && '*' !in b && x != []
    ensures Replace(a + "*" + x + "*" + b, 2, t1, 0) == a + "*" + x + "*" + b
  {
    var s := a + "*" + x + "*" + b;
    var d := "*" + x + "*";
    assert s == a + d + b;
    forall j | 0 <= j < |s| ensures !StarsAt(s, j, 2) {
      if StarsAt(s, j, 2) {
        Around(a, d, b, j);
        Around(a, d, b, j + 1);
        FrameStars(x, j - |a|);
        FrameStars(x, j + 1 - |a|);
        assert false;
      }
    }
    ReplaceIdentity(s, 2, t1, 0);
    assert s[0..] == s;
  }

  /** A stray `**` is no strong span, but it is an empty emphasis span. */
  lemma EmptyEmphasis(a: string, b: string)
    requires '*' !in a && '*' !in b
    ensures Emph(a + "**" + b) == a + "<em></em>" + b
  {
    StrayPair(a, b, "strong", "em");
    TagLiterals();
  }

  /** Both passes over a lone `**`, for any tags: the second pass tags the empty text
      between its two asterisks. */
  lemma StrayPair(a: string, b: string, t1: string, t2: string)
    requires '*' !in a && '*' !in b
    ensures Replace(Replace(a + "**" + b, 2, t1, 0), 1, t2, 0) == a + Open(t2) + Close(t2) + b
  {
    StrayStrong(a, b, t1);
    StrayShape(a, b);
    PassOnSpan(a, "*", [], b, 1, t2);
    EmptyMiddle(a, Open(t2), Close(t2), b);
  }

  /** `a**b` read as a single-asterisk span around empty text. */
  lemma StrayShape(a: string, b: string)
    ensures a + "**" + b == a + "*" + [] + "*" + b
  {
    assert "**" == "*" + [] + "*";
  }

  lemma EmptyMiddle(a: string, o: string, c: string, b: string)
    ensures a + o + [] + c + b == a + o + c + b
  {
  }

  /** The first pass leaves a lone `**` alone: no second `**` closes it. */
  lemma StrayStrong(a: string, b: string, t1: string)
    requires '*' !in a && '*' !in b
    ensures Replace(a + "**" + b, 2, t1, 0) == a + "**" + b
  {
    var s := a + "**" + b;
    StarFreeAfter(a, "**", b);
    FindCloseNone(s, 2, |a| + 2);
    forall j | 0 <= j < |s| && StarsAt(s, j, 2) ensures FindClose(s, 2, j + 2).None? {
      Around(a, "**", b, j);
      Around(a, "**", b, j + 1);
    }
    ReplaceIdentity(s, 2, t1, 0);
    assert s[0..] == s;
  }
}
