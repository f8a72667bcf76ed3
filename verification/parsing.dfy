/** The input parser `processa_entrada`: split the text on commas, strip
    every piece, skip the pieces that are empty after stripping, and convert
    the rest to numbers, all or nothing.

    Python's `float` is not modelled: the conversion of one token is the
    parameter `parse`, any total function from strings to optional reals,
    and every property below holds whatever that function is. */
module Parsing {
  import opened Wrappers

  /** The separator the input is split on. */
  const Comma: char := ','

  /** The characters Python's `str.isspace` accepts, which is the set
      `str.strip()` with no argument removes. */
  predicate IsSpace(c: char) {
    || ('\t' <= c <= '\r')                 // tab, line feed, vertical tab, form feed, carriage return
    || ('\U{1C}' <= c <= '\U{1F}')         // file, group, record and unit separators
    || c == ' '
    || c == '\U{85}'                       // next line
    || c == '\U{A0}'                       // no-break space
    || c == '\U{1680}'
    || ('\U{2000}' <= c <= '\U{200A}')
    || c == '\U{2028}' || c == '\U{2029}'
    || c == '\U{202F}' || c == '\U{205F}' || c == '\U{3000}'
  }

  predicate AllSpace(s: string) {
    forall i :: 0 <= i < |s| ==> IsSpace(s[i])
  }

  /** `s` without its leading whitespace. */
  function TrimStart(s: string): string {
    if |s| > 0 && IsSpace(s[0]) then TrimStart(s[1..]) else s
  }

  /** `s` without its trailing whitespace. */
  function TrimEnd(s: string): string {
    if |s| > 0 && IsSpace(s[|s| - 1]) then TrimEnd(s[..|s| - 1]) else s
  }

  /** `str.strip()` with no argument. */
  function Strip(s: string): string {
    TrimEnd(TrimStart(s))
  }

  /** `TrimStart` drops exactly the whitespace prefix. */
  lemma {:induction false} TrimStartDrops(s: string) returns (i: nat)
    ensures i <= |s| && TrimStart(s) == s[i..] && AllSpace(s[..i])
    ensures i < |s| ==> !IsSpace(s[i])
  {
    if |s| > 0 && IsSpace(s[0]) {
      var k := TrimStartDrops(s[1..]);
      i := k + 1;
      assert s[1..][k..] == s[i..];
      assert s[..i] == [s[0]] + s[1..][..k];
    } else {
      i := 0;
    }
  }

  /** `TrimEnd` keeps exactly what precedes the whitespace suffix. */
  lemma {:induction false} TrimEndKeeps(s: string) returns (j: nat)
    ensures j <= |s| && TrimEnd(s) == s[..j] && AllSpace(s[j..])
    ensures 0 < j ==> !IsSpace(s[j - 1])
  {
    if |s| > 0 && IsSpace(s[|s| - 1]) {
      j := TrimEndKeeps(s[..|s| - 1]);
      assert s[..|s| - 1][..j] == s[..j];
      assert s[j..] == s[..|s| - 1][j..] + [s[|s| - 1]];
    } else {
      j := |s|;
    }
  }

  /** What `Strip` keeps is an infix of `s` with only whitespace around it,
      neither starting nor ending with whitespace; it is empty exactly when
      `s` is all whitespace. */
  lemma StripSpec(s: string)
    ensures exists i, j :: 0 <= i <= j <= |s| && Strip(s) == s[i..j] && AllSpace(s[..i]) && AllSpace(s[j..])
    ensures |Strip(s)| > 0 ==> !IsSpace(Strip(s)[0]) && !IsSpace(Strip(s)[|Strip(s)| - 1])
    ensures Strip(s) == [] <==> AllSpace(s)
  {
    var i := TrimStartDrops(s);
    var t := s[i..];
    var k := TrimEndKeeps(t);
    assert s[i + k..] == t[k..];
    assert Strip(s) == s[i..i + k];
    StripEmpty(s, i, i + k);
  }

  lemma StripEmpty(s: string, i: nat, j: nat)
    requires i <= j <= |s| && AllSpace(s[..i]) && AllSpace(s[j..])
    requires i < |s| ==> !IsSpace(s[i])
    ensures i == j <==> AllSpace(s)
  {
    if i == j {
      assert i == |s|;
      assert s == s[..i];
    }
  }

  /** Concatenation of `parts` with `sep` between consecutive parts, the
      inverse of `Split`. */
  function Join(parts: seq<string>, sep: char): string
    requires |parts| > 0
  {
    if |parts| == 1 then parts[0] else parts[0] + [sep] + Join(parts[1..], sep)
  }

  /** The pieces of `s`, the first of them continuing `piece`. */
  function SplitFrom(s: string, sep: char, piece: string): (parts: seq<string>)
    ensures |parts| > 0
  {
    if |s| == 0 then [piece]
    else if s[0] == sep then [piece] + SplitFrom(s[1..], sep, "")
    else SplitFrom(s[1..], sep, piece + [s[0]])
  }

  /** `str.split(sep)`: the maximal pieces between occurrences of `sep`,
      always at least one, so the empty string gives one empty piece. */
  function Split(s: string, sep: char): (parts: seq<string>)
    ensures |parts| > 0
  {
    SplitFrom(s, sep, "")
  }

  /** `kept` followed by the pieces that are not empty once stripped,
      stripped, in order: the list comprehension of the source, which
      appends one token per kept piece. */
  function NonBlankInto(pieces: seq<string>, kept: seq<string>): seq<string> {
    if |pieces| == 0 then kept
    else if |Strip(pieces[0])| == 0 then NonBlankInto(pieces[1..], kept)
    else NonBlankInto(pieces[1..], kept + [Strip(pieces[0])])
  }

  /** The tokens of `txt` that get converted to numbers. */
  function Fields(txt: string): seq<string> {
    NonBlankInto(Split(txt, Comma), [])
  }

  /** Convert every token; one failure fails the whole list. */
  function ParseAll(tokens: seq<string>, parse: string -> Option<real>): (r: Option<seq<real>>)
    ensures r.Some? <==> forall i :: 0 <= i < |tokens| ==> parse(tokens[i]).Some?
    ensures r.Some? ==> |r.value| == |tokens|
    ensures r.Some? ==> forall i :: 0 <= i < |tokens| ==> parse(tokens[i]) == Some(r.value[i])
  {
    if |tokens| == 0 then Some([])
    else
      match parse(tokens[0])
      case None => None
      case Some(x) =>
        match ParseAll(tokens[1..], parse)
        case None => None
        case Some(xs) => Some([x] + xs)
  }

  /** `processa_entrada`: one number per non-empty stripped token, in input
      order, or `None` when no token is left or any token fails to convert. */
  function ParseInput(txt: string, parse: string -> Option<real>): (r: Option<seq<real>>)
    ensures r.Some? <==>
      |Fields(txt)| > 0 && forall i :: 0 <= i < |Fields(txt)| ==> parse(Fields(txt)[i]).Some?
    ensures r.Some? ==> |r.value| == |Fields(txt)| > 0
    ensures r.Some? ==> forall i :: 0 <= i < |r.value| ==> parse(Fields(txt)[i]) == Some(r.value[i])
  {
    match ParseAll(Fields(txt), parse)
    case None => None
    case Some(xs) => if |xs| == 0 then None else Some(xs)
  }

  /** A text without the separator adds to the current piece only. */
  lemma {:induction false} SplitWithoutSeparator(w: string, sep: char, piece: string)
    requires sep !in w
    ensures SplitFrom(w, sep, piece) == [piece + w]
  {
    if |w| > 0 {
      assert w[0] != sep && sep !in w[1..];
      SplitWithoutSeparator(w[1..], sep, piece + [w[0]]);
      assert piece + [w[0]] + w[1..] == piece + w;
    } else {
      assert piece + w == piece;
    }
  }

  /** A comma-free piece that is not all whitespace gives exactly one
      token, the piece stripped. */
  lemma SingleField(w: string)
    requires Comma !in w && !AllSpace(w)
    ensures Fields(w) == [Strip(w)]
  {
    SplitWithoutSeparator(w, Comma, "");
    assert "" + w == w;
    StripSpec(w);
    var pieces := [w];
    assert Split(w, Comma) == pieces;
    assert pieces[1..] == [];
    calc {
      Fields(w);
      NonBlankInto(pieces, []);
      NonBlankInto(pieces[1..], [] + [Strip(w)]);
    }
  }

  /** Splitting at one separator and then splitting both sides gives the
      pieces of the whole text. */
  lemma {:induction false} SplitFromAppend(a: string, b: string, sep: char, piece: string)
    ensures SplitFrom(a + [sep] + b, sep, piece) == SplitFrom(a, sep, piece) + SplitFrom(b, sep, "")
  {
    var s := a + [sep] + b;
    if |a| == 0 {
      assert s[0] == sep && s[1..] == b;
    } else {
      assert s[0] == a[0] && s[1..] == a[1..] + [sep] + b;
      if a[0] == sep {
        SplitFromAppend(a[1..], b, sep, "");
        assert SplitFrom(s, sep, piece) == [piece] + (SplitFrom(a[1..], sep, "") + SplitFrom(b, sep, ""));
      } else {
        SplitFromAppend(a[1..], b, sep, piece + [a[0]]);
      }
    }
  }

  lemma SplitAppend(a: string, b: string, sep: char)
    ensures Split(a + [sep] + b, sep) == Split(a, sep) + Split(b, sep)
  {
    SplitFromAppend(a, b, sep, "");
  }

  /** No piece contains the separator. */
  lemma {:induction false} SplitPiecesFree(s: string, sep: char, piece: string)
    requires sep !in piece
    ensures forall i :: 0 <= i < |SplitFrom(s, sep, piece)| ==> sep !in SplitFrom(s, sep, piece)[i]
  {
    if |s| > 0 {
      if s[0] == sep {
        SplitPiecesFree(s[1..], sep, "");
      } else {
        SplitPiecesFree(s[1..], sep, piece + [s[0]]);
      }
    }
  }

  lemma {:induction false} JoinSplitFrom(s: string, sep: char, piece: string)
    ensures Join(SplitFrom(s, sep, piece), sep) == piece + s
  {
    if |s| > 0 {
      assert s == [s[0]] + s[1..];
      if s[0] == sep {
        JoinSplitFrom(s[1..], sep, "");
        var rest := SplitFrom(s[1..], sep, "");
        assert ([piece] + rest)[1..] == rest;
      } else {
        JoinSplitFrom(s[1..], sep, piece + [s[0]]);
      }
    }
  }

  /** `Join` inverts `Split`: the pieces put back together give the text,
      and none of them contains the separator. */
  lemma JoinSplit(s: string, sep: char)
    ensures Join(Split(s, sep), sep) == s
    ensures forall i :: 0 <= i < |Split(s, sep)| ==> sep !in Split(s, sep)[i]
  {
    JoinSplitFrom(s, sep, "");
    SplitPiecesFree(s, sep, "");
  }

  /** `Split` inverts `Join`: separator-free pieces come back unchanged. */
  lemma {:induction false} SplitJoin(parts: seq<string>, sep: char)
    requires |parts| > 0
    requires forall i :: 0 <= i < |parts| ==> sep !in parts[i]
    ensures Split(Join(parts, sep), sep) == parts
  {
    SplitWithoutSeparator(parts[0], sep, "");
    assert "" + parts[0] == parts[0];
    if |parts| > 1 {
      SplitJoin(parts[1..], sep);
      SplitAppend(parts[0], Join(parts[1..], sep), sep);
      assert parts == [parts[0]] + parts[1..];
    }
  }

  /** Collecting over two runs of pieces is collecting over the first,
      then over the second. */
  lemma {:induction false} NonBlankAppend(a: seq<string>, b: seq<string>, kept: seq<string>)
    ensures NonBlankInto(a + b, kept) == NonBlankInto(b, NonBlankInto(a, kept))
  {
    if |a| == 0 {
      assert a + b == b;
    } else {
      assert (a + b)[0] == a[0] && (a + b)[1..] == a[1..] + b;
      if |Strip(a[0])| == 0 {
        NonBlankAppend(a[1..], b, kept);
      } else {
        NonBlankAppend(a[1..], b, kept + [Strip(a[0])]);
      }
    }
  }

  /** A token is collected exactly when it was already kept or is the
      non-empty stripped form of some piece; no collected token is empty. */
  lemma {:induction false} NonBlankMembers(pieces: seq<string>, kept: seq<string>, t: string)
    ensures t in NonBlankInto(pieces, kept) <==>
      t in kept || (|t| > 0 && exists i :: 0 <= i < |pieces| && t == Strip(pieces[i]))
  {
    if |pieces| > 0 {
      var k' := if |Strip(pieces[0])| == 0 then kept else kept + [Strip(pieces[0])];
      NonBlankMembers(pieces[1..], k', t);
      if |t| > 0 && exists i :: 0 <= i < |pieces| && t == Strip(pieces[i]) {
        var i :| 0 <= i < |pieces| && t == Strip(pieces[i]);
        if i > 0 {
          assert pieces[1..][i - 1] == pieces[i];
        }
      }
      if exists i :: 0 <= i < |pieces[1..]| && t == Strip(pieces[1..][i]) {
        var i :| 0 <= i < |pieces[1..]| && t == Strip(pieces[1..][i]);
        assert pieces[1..][i] == pieces[i + 1];
      }
    }
  }

  /** The tokens collected after `kept` do not depend on `kept`. */
  lemma {:induction false} NonBlankKept(pieces: seq<string>, kept: seq<string>)
    ensures NonBlankInto(pieces, kept) == kept + NonBlankInto(pieces, [])
  {
    if |pieces| == 0 {
      assert kept + [] == kept;
    } else if |Strip(pieces[0])| == 0 {
      NonBlankKept(pieces[1..], kept);
    } else {
      var x := Strip(pieces[0]);
      NonBlankKept(pieces[1..], kept + [x]);
      NonBlankKept(pieces[1..], [] + [x]);
      assert kept + [x] + NonBlankInto(pieces[1..], []) == kept + ([x] + NonBlankInto(pieces[1..], []));
    }
  }

  /** The tokens of a text split at one comma are the tokens of the left
      part followed by those of the right part: tokens keep input order. */
  lemma FieldsAppend(a: string, b: string)
    ensures Fields(a + [Comma] + b) == Fields(a) + Fields(b)
  {
    SplitAppend(a, b, Comma);
    NonBlankAppend(Split(a, Comma), Split(b, Comma), []);
    NonBlankKept(Split(b, Comma), Fields(a));
  }

  /** The tokens of `txt` are exactly the non-empty stripped forms of its
      comma-separated pieces. */
  lemma FieldsMembers(txt: string, t: string)
    ensures t in Fields(txt) <==>
      |t| > 0 && exists i :: 0 <= i < |Split(txt, Comma)| && t == Strip(Split(txt, Comma)[i])
  {
    NonBlankMembers(Split(txt, Comma), [], t);
  }

  /** A token that is empty after stripping, such as the middle one of
      "1, , 2", is skipped rather than rejected. */
  lemma BlankFieldSkipped(a: string, w: string, b: string, parse: string -> Option<real>)
    requires AllSpace(w)
    ensures Fields(a + [Comma] + w + [Comma] + b) == Fields(a + [Comma] + b)
    ensures ParseInput(a + [Comma] + w + [Comma] + b, parse) == ParseInput(a + [Comma] + b, parse)
  {
    var t := a + [Comma] + w + [Comma] + b;
    assert t == a + [Comma] + (w + [Comma] + b);
    SplitAppend(a, w + [Comma] + b, Comma);
    SplitAppend(w, b, Comma);
    assert Comma !in w;
    SplitWithoutSeparator(w, Comma, "");
    assert "" + w == w;
    var kept := NonBlankInto(Split(a, Comma), []);
    NonBlankAppend(Split(a, Comma), [w] + Split(b, Comma), []);
    NonBlankAppend([w], Split(b, Comma), kept);
    NoFieldsAmongBlanks([w], kept);
    SplitAppend(a, b, Comma);
    NonBlankAppend(Split(a, Comma), Split(b, Comma), []);
    SameFieldsSameResult(t, a + [Comma] + b, parse);
  }

  /** The result depends on the text only through its fields. */
  lemma SameFieldsSameResult(t: string, u: string, parse: string -> Option<real>)
    requires Fields(t) == Fields(u)
    ensures ParseInput(t, parse) == ParseInput(u, parse)
  {
  }

  /** Every piece of a text made only of commas and whitespace is blank. */
  lemma {:induction false} BlankPieces(txt: string, piece: string)
    requires AllSpace(piece)
    requires forall k :: 0 <= k < |txt| ==> txt[k] == Comma || IsSpace(txt[k])
    ensures forall i :: 0 <= i < |SplitFrom(txt, Comma, piece)| ==> AllSpace(SplitFrom(txt, Comma, piece)[i])
  {
    if |txt| > 0 {
      if txt[0] == Comma {
        BlankPieces(txt[1..], "");
      } else {
        BlankPieces(txt[1..], piece + [txt[0]]);
      }
    }
  }

  /** Input with no number-like token at all, the empty text included, is
      rejected. */
  lemma BlankInputRejected(txt: string, parse: string -> Option<real>)
    requires forall k :: 0 <= k < |txt| ==> txt[k] == Comma || IsSpace(txt[k])
    ensures Fields(txt) == []
    ensures ParseInput(txt, parse) == None
  {
    BlankPieces(txt, "");
    NoFieldsAmongBlanks(Split(txt, Comma), []);
  }

  /** Blank pieces contribute no token. */
  lemma {:induction false} NoFieldsAmongBlanks(pieces: seq<string>, kept: seq<string>)
    requires forall i :: 0 <= i < |pieces| ==> AllSpace(pieces[i])
    ensures NonBlankInto(pieces, kept) == kept
  {
    if |pieces| > 0 {
      StripSpec(pieces[0]);
      NoFieldsAmongBlanks(pieces[1..], kept);
    }
  }

  /** One token that fails to convert rejects the whole input, whatever the
      other tokens are. */
  lemma OneBadTokenRejects(txt: string, parse: string -> Option<real>, i: nat)
    requires i < |Fields(txt)| && parse(Fields(txt)[i]).None?
    ensures ParseInput(txt, parse) == None
  {
  }
}
