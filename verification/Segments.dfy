/** Text as the pieces between its quotes: searching for a quoted key becomes searching a
    sequence. */
module Segments {
  import opened Prelude
  import opened Scanning
  import opened Fields

  function Join(segs: seq<string>): string {
    if segs == [] then ""
    else if |segs| == 1 then segs[0]
    else segs[0] + ("\"" + Join(segs[1..]))
  }

  /** Free of quotes and backslashes. */
  predicate Plain(s: string) { '"' !in s && '\\' !in s }

  predicate AllPlain(segs: seq<string>) { forall s <- segs :: Plain(s) }

  /** The piece between a name and its string value. */
  predicate NameGap(g: string) { g == ": " }

  /** A piece that ends the search behind a quoted word. */
  predicate OtherGap(g: string) { g != "" && !IsSpace(g[0]) && g[0] != ':' }

  /** Every quoted `key` is a name with a complete value or clearly none. */
  predicate WellGapped(segs: seq<string>, key: string) {
    |segs| < 3 ||
    (&& (segs[1] == key ==> (NameGap(segs[2]) && |segs| >= 5) || OtherGap(segs[2]))
     && WellGapped(segs[1..], key))
  }

  /** The value of the first `key` that is used as a name. */
  function SegField(segs: seq<string>, key: string): Option<string> {
    if |segs| < 3 then None
    else if segs[1] != key then SegField(segs[1..], key)
    else if NameGap(segs[2]) && |segs| >= 5 then Some(segs[3])
    else SegField(segs[2..], key)
  }

  predicate StartsWithWord(t: string, a: string) { |a| < |t| && t[..|a|] == a && t[|a|] == '"' }

  lemma SameWordBeforeQuote(t: string, a: string, b: string)
    requires '"' !in a && '"' !in b && StartsWithWord(t, a) && StartsWithWord(t, b)
    ensures a == b
  {
    assert forall i :: 0 <= i < |a| ==> a[i] == t[i];
    assert forall i :: 0 <= i < |b| ==> b[i] == t[i];
    assert |a| == |b|;
  }

  lemma QuotedAtQuote(t: string, key: string)
    ensures OccursAt("\"" + t, Quoted(key), 0) <==> StartsWithWord(t, key)
  {
    var s, pat := "\"" + t, Quoted(key);
    if StartsWithWord(t, key) {
      assert t == key + "\"" + t[|key| + 1..];
      assert s == pat + t[|key| + 1..];
      assert s[0..|pat|] == pat;
    }
    if OccursAt(s, pat, 0) {
      assert pat[1..] == key + "\"" && s[..|pat|][1..] == t[..|key| + 1];
      assert t[..|key| + 1][..|key|] == t[..|key|] && (key + "\"")[..|key|] == key;
      assert t[..|key| + 1][|key|] == t[|key|];
    }
  }

  lemma JoinStartsWith(rest: seq<string>)
    requires |rest| >= 2
    ensures StartsWithWord(Join(rest), rest[0])
  {
    assert Join(rest)[..|rest[0]|] == rest[0];
  }

  /** The key stands at the start of the text exactly when it is the first piece behind the quote. */
  lemma MatchAtQuote(rest: seq<string>, key: string)
    requires rest != [] && '"' !in rest[0] && '"' !in key
    ensures OccursAt("\"" + Join(rest), Quoted(key), 0) <==> |rest| >= 2 && rest[0] == key
  {
    QuotedAtQuote(Join(rest), key);
    if |rest| == 1 {
      assert forall i :: 0 <= i < |rest[0]| ==> rest[0][i] != '"';
    } else {
      JoinStartsWith(rest);
      if StartsWithWord(Join(rest), key) {
        SameWordBeforeQuote(Join(rest), key, rest[0]);
      }
    }
  }

  lemma PlainValue(v: string, rest: string)
    requires Plain(v)
    ensures Value(v + ("\"" + rest)) == Some(v)
  {
    var s := v + ("\"" + rest);
    assert forall i :: 0 <= i < |v| ==> s[i] == v[i] && s[i] != '"';
    FirstCloseIs(s, 0, |v|);
    assert s[..|v|] == v;
  }

  lemma SearchNext(s: string, pat: string, f: Follow)
    requires s != [] && pat != "" && !OccursAt(s, pat, 0)
    ensures Search(s, pat, f) == Search(s[1..], pat, f)
  {
    FindNext(s, pat);
    match Find(s[1..], pat)
    case Some(i) => TailOfTail(s, 1, i + |pat|);
    case None =>
  }

  lemma FieldAt(s: string, key: string)
    requires OccursAt(s, Quoted(key), 0)
    ensures var after := s[|Quoted(key)|..];
            Field(s, key) == match StringBehind(after) case Some(v) => Value(v) case None => Field(after, key)
  {
    FindIs(s, Quoted(key), 0);
  }

  /** Behind a key a name gap leads to the value. */
  lemma BehindNameGap(t: string)
    ensures StringBehind(": " + ("\"" + t)) == Some(t)
  {
    var q := "\"" + t;
    var s := ": " + q;
    assert s[1..] == " " + q && s[1..][1..] == q && q[1..] == t;
    assert AfterSpaces(q) == q;
    assert AfterSpaces(s[1..]) == AfterSpaces(s[1..][1..]);
  }

  /** Another gap leads to nothing. */
  lemma BehindOtherGap(g: string, t: string)
    requires OtherGap(g)
    ensures StringBehind(g + t) == None
  {
    assert (g + t)[0] == g[0];
  }

  lemma BehindGap(segs: seq<string>)
    requires segs != []
    ensures NameGap(segs[0]) && |segs| >= 2 ==> StringBehind(Join(segs)) == Some(Join(segs[1..]))
    ensures OtherGap(segs[0]) ==> StringBehind(Join(segs)) == None
  {
    var t := if |segs| == 1 then "" else "\"" + Join(segs[1..]);
    assert |segs| == 1 ==> segs[0] + "" == segs[0];
    assert Join(segs) == segs[0] + t;
    if OtherGap(segs[0]) {
      BehindOtherGap(segs[0], t);
    } else if NameGap(segs[0]) && |segs| >= 2 {
      BehindNameGap(Join(segs[1..]));
    }
  }

  /** Skipping the first piece. */
  lemma FirstPiece(segs: seq<string>, key: string)
    requires segs != [] && '"' !in segs[0]
    ensures Field(Join(segs), key) == if |segs| == 1 then None else Field("\"" + Join(segs[1..]), key)
  {
    var s := Join(segs);
    assert forall i :: 0 <= i < |segs[0]| ==> s[i] == segs[0][i];
    SearchSkip(s, Quoted(key), ColonAndQuote, |segs[0]|);
    if |segs| == 1 {
      assert s[|segs[0]|..] == "" && Find("", Quoted(key)) == None;
    } else {
      assert s[|segs[0]|..] == "\"" + Join(segs[1..]);
    }
  }

  lemma KeyThen(rest: string, key: string)
    ensures Field(Quoted(key) + rest, key) ==
            match StringBehind(rest) case Some(v) => Value(v) case None => Field(rest, key)
  {
    var t := Quoted(key) + rest;
    assert t[0..|Quoted(key)|] == Quoted(key) && t[|Quoted(key)|..] == rest;
    FieldAt(t, key);
  }

  lemma QuotedJoin(key: string, rest: seq<string>)
    requires rest != []
    ensures "\"" + Join([key] + rest) == Quoted(key) + Join(rest)
  {
    assert ([key] + rest)[1..] == rest;
  }

  /** Behind the key: a name gap and a complete value, or another gap. */
  lemma ValuePiece(rest: seq<string>)
    requires rest != [] && AllPlain(rest) && ((NameGap(rest[0]) && |rest| >= 3) || OtherGap(rest[0]))
    ensures if NameGap(rest[0])
            then StringBehind(Join(rest)).Some? && Value(StringBehind(Join(rest)).value) == Some(rest[1])
            else StringBehind(Join(rest)) == None
  {
    BehindGap(rest);
    if NameGap(rest[0]) {
      assert rest[1] in rest && rest[1..][1..] == rest[2..];
      PlainValue(rest[1], Join(rest[2..]));
    }
  }

  /** The key as the first quoted piece. */
  lemma KeyPiece(segs: seq<string>, key: string)
    requires |segs| >= 3 && AllPlain(segs) && segs[1] == key
    requires (NameGap(segs[2]) && |segs| >= 5) || OtherGap(segs[2])
    ensures Field(Join(segs), key) ==
            if NameGap(segs[2]) then Some(segs[3]) else Field(Join(segs[2..]), key)
  {
    var rest := segs[2..];
    assert segs[0] in segs && segs[1..] == [key] + rest;
    FirstPiece(segs, key);
    QuotedJoin(key, rest);
    KeyThen(Join(rest), key);
    ValuePiece(rest);
  }

  lemma {:induction false} FieldOfSegments(segs: seq<string>, key: string)
    requires segs != [] && AllPlain(segs) && Plain(key) && WellGapped(segs, key)
    ensures Field(Join(segs), key) == SegField(segs, key)
    decreases |segs|
  {
    assert segs[0] in segs && (|segs| > 1 ==> segs[1] in segs);
    if |segs| == 1 {
      FirstPiece(segs, key);
    } else if |segs| >= 3 && segs[1] == key {
      KeyPiece(segs, key);
      if !NameGap(segs[2]) {
        assert segs[1..][1..] == segs[2..];
        FieldOfSegments(segs[2..], key);
      }
    } else {
      var t := "\"" + Join(segs[1..]);
      FirstPiece(segs, key);
      MatchAtQuote(segs[1..], key);
      SearchNext(t, Quoted(key), ColonAndQuote);
      assert t[1..] == Join(segs[1..]);
      FieldOfSegments(segs[1..], key);
    }
  }

  /** Pieces other than the key can be dropped from the front, the last of them excepted. */
  lemma {:induction false} SegSkip(pre: seq<string>, post: seq<string>, key: string)
    requires pre != [] && post != [] && key !in pre[1..]
    ensures SegField(pre + post, key) == SegField([pre[|pre| - 1]] + post, key)
    ensures WellGapped(pre + post, key) == WellGapped([pre[|pre| - 1]] + post, key)
    decreases |pre|
  {
    if |pre| == 1 {
      assert pre == [pre[0]];
    } else {
      assert (pre + post)[1..] == pre[1..] + post && (pre + post)[1] == pre[1];
      assert pre[1..][1..] == pre[2..];
      SegSkip(pre[1..], post, key);
    }
  }
}
