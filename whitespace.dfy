/** The text cleanup applied to extracted PDF text: removing null characters
    (`replace('\x00', '')`) and collapsing whitespace with
    `' '.join(s.split())`. */
module Whitespace {
  import opened SeqFacts
  import opened PyStr

  /** No null character occurs in `s`. */
  predicate NoNull(s: string) {
    forall i :: 0 <= i < |s| ==> s[i] != '\0'
  }

  /** A word as `split()` produces it: non-empty, no whitespace. */
  predicate IsWord(w: string) {
    |w| > 0 && forall i :: 0 <= i < |w| ==> !IsSpace(w[i])
  }

  predicate AllWords(ws: seq<string>) {
    forall i :: 0 <= i < |ws| ==> IsWord(ws[i])
  }

  predicate AllNoNull(ws: seq<string>) {
    forall i :: 0 <= i < |ws| ==> NoNull(ws[i])
  }

  /** Text in the shape the cleanup promises: no null character, and every
      whitespace character is a single `' '` with a non-blank character on
      each side (so none at either end and never two in a row). */
  predicate Normalized(t: string) {
    && NoNull(t)
    && forall i :: 0 <= i < |t| && IsSpace(t[i]) ==>
         t[i] == ' ' && 0 < i < |t| - 1 && !IsSpace(t[i - 1]) && !IsSpace(t[i + 1])
  }

  /** Python's `s.replace('\x00', '')`. */
  function RemoveNulls(s: string): (r: string)
    ensures NoNull(r) && |r| <= |s|
    ensures NoNull(s) ==> r == s
    ensures multiset(r) == multiset(s)['\0' := 0]
  {
    if s == [] then []
    else
      var init := RemoveNulls(s[..|s| - 1]);
      assert s == s[..|s| - 1] + [s[|s| - 1]];
      if s[|s| - 1] == '\0' then init else init + [s[|s| - 1]]
  }

  /** Removing nulls works piece by piece. */
  lemma {:induction false} RemoveNullsAppend(x: string, y: string)
    ensures RemoveNulls(x + y) == RemoveNulls(x) + RemoveNulls(y)
    decreases |y|
  {
    if y != [] {
      var y', c := y[..|y| - 1], y[|y| - 1];
      assert x + y == (x + y') + [c];
      assert (x + y)[..|x + y| - 1] == x + y';
      RemoveNullsAppend(x, y');
    } else {
      assert x + y == x;
    }
  }

  /** Python's `s.split()` with no argument: the maximal runs of
      non-whitespace characters, in order. Defined on the last character so
      that text appended at the end extends the last word or starts a new
      one. */
  function Split(s: string): (ws: seq<string>)
    ensures AllWords(ws)
    ensures s != [] && !IsSpace(s[|s| - 1]) ==> |ws| > 0
    decreases |s|
  {
    if s == [] then []
    else
      var init, c := s[..|s| - 1], s[|s| - 1];
      var ws := Split(init);
      if IsSpace(c) then ws
      else if init == [] || IsSpace(init[|init| - 1]) then ws + [[c]]
      else ExtendLast(ws, c)
  }

  /** `ws` with `c` appended to its last word. */
  function ExtendLast(ws: seq<string>, c: char): seq<string>
    requires |ws| > 0
  {
    ws[..|ws| - 1] + [ws[|ws| - 1] + [c]]
  }

  /** One step of `Split`, stated for a string built by appending. */
  lemma {:induction false} SplitSnoc(s: string, c: char)
    ensures Split(s + [c]) ==
      if IsSpace(c) then Split(s)
      else if s == [] || IsSpace(s[|s| - 1]) then Split(s) + [[c]]
      else ExtendLast(Split(s), c)
  {
    assert (s + [c])[..|s + [c]| - 1] == s;
  }

  /** Python's `' '.join(ws)`. */
  function JoinSpace(ws: seq<string>): (r: string)
    ensures ws == [] ==> r == []
    ensures |ws| > 0 && |ws[0]| > 0 ==> |r| > 0 && r[0] == ws[0][0]
    ensures |ws| > 0 && |ws[|ws| - 1]| > 0 ==>
              |r| > 0 && r[|r| - 1] == ws[|ws| - 1][|ws[|ws| - 1]| - 1]
  {
    if ws == [] then []
    else if |ws| == 1 then ws[0]
    else
      var init := ws[..|ws| - 1];
      assert init[0] == ws[0];
      JoinSpace(init) + " " + ws[|ws| - 1]
  }

  /** The words the cleanup keeps: `s.replace('\x00', '').split()`. */
  function Words(s: string): seq<string> {
    Split(RemoveNulls(s))
  }

  /** The whole cleanup: `' '.join(s.replace('\x00', '').split()).strip()`. */
  function Clean(s: string): string {
    Strip(JoinSpace(Words(s)))
  }

  /** Appending a space and a word to normalized text that ends in a
      non-blank character keeps it normalized. */
  lemma NormalizedAppendWord(a: string, w: string)
    requires Normalized(a) && |a| > 0 && !IsSpace(a[|a| - 1])
    requires IsWord(w) && NoNull(w)
    ensures Normalized(a + " " + w)
  {
    var t := a + " " + w;
    forall i | 0 <= i < |t|
      ensures t[i] != '\0'
      ensures IsSpace(t[i]) ==>
        t[i] == ' ' && 0 < i < |t| - 1 && !IsSpace(t[i - 1]) && !IsSpace(t[i + 1])
    {
      if i < |a| {
        assert t[i] == a[i];
        if i + 1 < |a| { assert t[i + 1] == a[i + 1]; }
        if 0 < i { assert t[i - 1] == a[i - 1]; }
      } else if i > |a| {
        assert t[i] == w[i - |a| - 1];
        if i + 1 < |t| { assert t[i + 1] == w[i - |a|]; }
        if i - 1 > |a| { assert t[i - 1] == w[i - |a| - 2]; }
      } else {
        assert t[i + 1] == w[0];
      }
    }
  }

  /** Joining words with single spaces yields normalized text. */
  lemma {:induction false} JoinSpaceNormalized(ws: seq<string>)
    requires AllWords(ws) && AllNoNull(ws)
    ensures Normalized(JoinSpace(ws))
  {
    if |ws| > 1 {
      var init, w := ws[..|ws| - 1], ws[|ws| - 1];
      assert AllWords(init) && AllNoNull(init) by {
        forall i | 0 <= i < |init| ensures IsWord(init[i]) && NoNull(init[i]) {
          assert init[i] == ws[i];
        }
      }
      JoinSpaceNormalized(init);
      NormalizedAppendWord(JoinSpace(init), w);
    }
  }

  /** `split()` of a single word is that word. */
  lemma {:induction false} SplitWord(w: string)
    requires IsWord(w)
    ensures Split(w) == [w]
    decreases |w|
  {
    var init := w[..|w| - 1];
    if init != [] {
      assert IsWord(init) by {
        forall i | 0 <= i < |init| ensures !IsSpace(init[i]) { assert init[i] == w[i]; }
      }
      SplitWord(init);
      SplitSnoc(init, w[|w| - 1]);
      assert w == init + [w[|w| - 1]];
    } else {
      assert w == [w[0]];
    }
  }

  /** Appending one character acts on the same last word whenever two
      strings end alike and split alike up to a common prefix of words. */
  lemma {:induction false} SplitSnocShared(z: string, y: string, a: seq<string>, c: char)
    requires Split(z) == a + Split(y)
    requires |z| > 0 && if y == [] then IsSpace(z[|z| - 1]) else z[|z| - 1] == y[|y| - 1]
    ensures Split(z + [c]) == a + Split(y + [c])
  {
    var b := Split(y);
    if IsSpace(c) {
      calc {
        Split(z + [c]);
        { SplitSnoc(z, c); }
        a + b;
        { SplitSnoc(y, c); }
        a + Split(y + [c]);
      }
    } else if y == [] || IsSpace(y[|y| - 1]) {
      calc {
        Split(z + [c]);
        { SplitSnoc(z, c); }
        (a + b) + [[c]];
        a + (b + [[c]]);
        { SplitSnoc(y, c); }
        a + Split(y + [c]);
      }
    } else {
      calc {
        Split(z + [c]);
        { SplitSnoc(z, c); }
        ExtendLast(a + b, c);
        a + ExtendLast(b, c);
        { SplitSnoc(y, c); }
        a + Split(y + [c]);
      }
    }
  }

  /** A whitespace character separates: splitting `x + [sp] + y` splits the
      two sides on their own. */
  lemma {:induction false} SplitAtSpace(x: string, sp: char, y: string)
    requires IsSpace(sp)
    ensures Split(x + [sp] + y) == Split(x) + Split(y)
    decreases |y|
  {
    if y == [] {
      assert x + [sp] + y == x + [sp];
      SplitSnoc(x, sp);
    } else {
      var y', c := y[..|y| - 1], y[|y| - 1];
      var z := x + [sp] + y';
      assert x + [sp] + y == z + [c] && y == y' + [c];
      SplitAtSpace(x, sp, y');
      assert z[|z| - 1] == if y' == [] then sp else y'[|y'| - 1];
      SplitSnocShared(z, y', Split(x), c);
    }
  }

  /** `split()` undoes `' '.join(...)` on a list of words. */
  lemma {:induction false} SplitJoin(ws: seq<string>)
    requires AllWords(ws)
    ensures Split(JoinSpace(ws)) == ws
    decreases |ws|
  {
    if |ws| == 1 {
      SplitWord(ws[0]);
    } else if |ws| > 1 {
      var init, w := ws[..|ws| - 1], ws[|ws| - 1];
      assert AllWords(init) by {
        forall i | 0 <= i < |init| ensures IsWord(init[i]) { assert init[i] == ws[i]; }
      }
      calc {
        Split(JoinSpace(ws));
        Split(JoinSpace(init) + " " + w);
        { SplitAtSpace(JoinSpace(init), ' ', w); }
        Split(JoinSpace(init)) + Split(w);
        { SplitJoin(init); SplitWord(w); }
        init + [w];
        ws;
      }
    }
  }

  /** `split()` finds no word exactly in blank text. */
  lemma {:induction false} SplitBlank(s: string)
    ensures Split(s) == [] <==> AllSpace(s)
    decreases |s|
  {
    if s != [] {
      var init, c := s[..|s| - 1], s[|s| - 1];
      assert s == init + [c];
      SplitBlank(init);
      SplitSnoc(init, c);
      assert AllSpace(s) <==> AllSpace(init) && IsSpace(c);
    }
  }

  /** The words of text without null characters contain none either. */
  lemma {:induction false} SplitNoNull(s: string)
    requires NoNull(s)
    ensures AllNoNull(Split(s))
    decreases |s|
  {
    if s != [] {
      var init, c := s[..|s| - 1], s[|s| - 1];
      assert s == init + [c];
      SplitNoNull(init);
      SplitSnoc(init, c);
      var ws := Split(init);
      if !IsSpace(c) && !(init == [] || IsSpace(init[|init| - 1])) {
        var last := ws[|ws| - 1] + [c];
        assert NoNull(last) by { assert NoNull(ws[|ws| - 1]); }
        assert ExtendLast(ws, c) == ws[..|ws| - 1] + [last];
      }
    }
  }

  /** On normalized text, `' '.join(t.split())` gives back `t`. */
  lemma {:induction false} JoinSplitNormalized(t: string)
    requires Normalized(t)
    ensures JoinSpace(Split(t)) == t
    decreases |t|
  {
    if t != [] {
      var i := |t| - 1;
      while i > 0 && !IsSpace(t[i - 1])
        invariant 0 <= i <= |t| - 1
        invariant forall j :: i <= j < |t| ==> !IsSpace(t[j])
        decreases i
      {
        i := i - 1;
      }
      var w := t[i..];
      assert IsWord(w);
      if i == 0 {
        assert t == w;
        SplitWord(w);
      } else {
        var x := t[..i - 1];
        assert t[i - 1] == ' ';
        assert t == x + [' '] + w;
        assert Normalized(x) by {
          forall j | 0 <= j < |x| ensures x[j] == t[j] {}
          assert i - 1 > 0;
          assert !IsSpace(t[i - 2]);
        }
        JoinSplitNormalized(x);
        SplitAtSpace(x, ' ', w);
        SplitWord(w);
        assert x != [];
        assert Split(x) != [] by { assert !IsSpace(x[|x| - 1]); }
        var ws := Split(x) + [w];
        assert ws[..|ws| - 1] == Split(x);
      }
    }
  }

  /** The cleanup is the words of the text, joined by single spaces, and
      that joined text is normalized. */
  lemma CleanIsJoin(s: string)
    ensures Clean(s) == JoinSpace(Words(s))
    ensures Normalized(JoinSpace(Words(s)))
  {
    var ws := Words(s);
    SplitNoNull(RemoveNulls(s));
    JoinSpaceNormalized(ws);
    NormalizedTrimmed(JoinSpace(ws));
    StripTrimmed(JoinSpace(ws));
  }

  /** Normalized text is left alone by the cleanup. */
  lemma CleanOfNormalized(t: string)
    requires Normalized(t)
    ensures Clean(t) == t
  {
    assert RemoveNulls(t) == t;
    JoinSplitNormalized(t);
    NormalizedTrimmed(t);
    StripTrimmed(t);
  }

  /** The cleanup always produces normalized text, and cleaning it again
      changes nothing. */
  lemma CleanNormalized(s: string)
    ensures Clean(s) == JoinSpace(Words(s))
    ensures Normalized(Clean(s))
    ensures Clean(Clean(s)) == Clean(s)
  {
    CleanIsJoin(s);
    CleanOfNormalized(Clean(s));
  }

  /** Normalized text has no whitespace at either end. */
  lemma NormalizedTrimmed(t: string)
    requires Normalized(t)
    ensures Trimmed(t)
  {
  }

  /** Blank text has no words. */
  lemma WordsBlank(t: string)
    requires AllSpace(t)
    ensures Words(t) == []
  {
    assert NoNull(t);
    SplitBlank(t);
  }

  /** A line break separates words: the words of `x + "\n" + y` are those
      of `x` followed by those of `y`. */
  lemma WordsAtNewline(x: string, y: string)
    ensures Words(x + "\n" + y) == Words(x) + Words(y)
  {
    RemoveNullsAppend(x + "\n", y);
    RemoveNullsAppend(x, "\n");
    assert RemoveNulls("\n") == "\n";
    assert x + "\n" + y == (x + "\n") + y;
    assert RemoveNulls(x) + "\n" + RemoveNulls(y) == RemoveNulls(x) + ['\n'] + RemoveNulls(y);
    SplitAtSpace(RemoveNulls(x), '\n', RemoveNulls(y));
  }

  /** A trailing line break adds no word. */
  lemma WordsTrailingNewline(x: string)
    ensures Words(x + "\n") == Words(x)
  {
    WordsAtNewline(x, "");
    assert x + "\n" + "" == x + "\n";
    assert Words("") == [];
  }

  /** `s` is empty or ends with a line break: what follows starts a line. */
  predicate AtLineStart(s: string) {
    s == [] || s[|s| - 1] == '\n'
  }

  /** Text that starts a line contributes its own words, after those
      before it. */
  lemma WordsAfterBreak(x: string, a: string, c: string)
    requires x == a + c && AtLineStart(a)
    ensures Words(x) == Words(a) + Words(c)
  {
    if a == [] {
      assert a + c == c;
      assert Words(a) == [];
    } else {
      var x := a[..|a| - 1];
      assert a == x + "\n";
      ConcatAssoc(x, "\n", c);
      WordsAtNewline(x, c);
      WordsTrailingNewline(x);
    }
  }
}
