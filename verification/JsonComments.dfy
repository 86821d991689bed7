/** What cJSON_Minify makes of a text put together from characters, strings, white space and comments. */
module JsonComments {
  import opened JsonSpec
  import opened JsonRoundTrip
  import opened JsonEscapes
  import opened JsonMinify

  /**
   Character is any character outside strings, comments and white space that is no slash.  The
   parts of a string are single characters, or a backslash and the character behind it.
   */
  datatype Piece =
    | Character(c: char)
    | Quoted(parts: seq<string>)
    | Space(c: char)
    | LineComment(s: string)
    | BlockComment(s: string)

  ghost predicate IsPart(x: string) {
    (|x| == 1 && x[0] != '\"' && x[0] != '\\') || (|x| == 2 && x[0] == '\\')
  }

  /** A comment starts with a slash and a star, and what ends it stands at its end and nowhere before. */
  ghost predicate ClosesAtEnd(w: string) {
    && |w| >= 3 && w[0] == '/' && w[1] == '*' && w[|w| - 2] == '*' && w[|w| - 1] == '/'
    && forall k | 0 <= k < |w| - 2 :: !(w[k] == '*' && w[k + 1] == '/')
  }

  ghost predicate WellFormed(p: Piece) {
    match p
    case Character(c) => c != ' ' && c != '\t' && c != '\r' && c != '\n' && c != '/' && c != '\"'
    case Quoted(parts) => forall k | 0 <= k < |parts| :: IsPart(parts[k])
    case Space(c) => c == ' ' || c == '\t' || c == '\r' || c == '\n'
    case LineComment(s) => '\n' !in s
    case BlockComment(s) => ClosesAtEnd(s)
  }

  ghost predicate AllFormed(ps: seq<Piece>) {
    forall k {:trigger Shaped(k)} | Shaped(k) :: forall i | 0 <= i < |ps| :: WellFormed(ps[i])
  }

  /** Asserting Shaped of some number brings what AllFormed says into a proof. */
  ghost predicate Shaped(k: int) {
    true
  }

  lemma FirstFormed(ps: seq<Piece>)
    requires AllFormed(ps) && ps != []
    ensures WellFormed(ps[0]) && AllFormed(ps[1..])
  {
    assert Shaped(0);
  }

  ghost function PieceText(p: Piece): string {
    match p
    case Character(c) => [c]
    case Quoted(parts) => "\"" + (Concat(parts) + "\"")
    case Space(c) => [c]
    case LineComment(s) => "//" + (s + "\n")
    case BlockComment(s) => s
  }

  /** Characters and strings stay as they are. */
  ghost predicate Stays(p: Piece) {
    p.Character? || p.Quoted?
  }

  ghost function TextOf(ps: seq<Piece>): string {
    if ps == [] then "" else PieceText(ps[0]) + TextOf(ps[1..])
  }

  ghost function KeptOf(ps: seq<Piece>): string {
    if ps == [] then "" else (if Stays(ps[0]) then PieceText(ps[0]) else "") + KeptOf(ps[1..])
  }

  lemma PartCloses(t: string, i: nat, x: string)
    requires Stands(t, i, x) && IsPart(x)
    ensures QuoteEnd(t, i) == QuoteEnd(t, i + |x|)
  {
    StartsAt(t, i, x, 0);
    if |x| == 2 {
      StartsAt(t, i, x, 1);
    }
  }

  lemma {:induction false} PartsClose(t: string, i: nat, parts: seq<string>)
    requires Stands(t, i, Concat(parts) + "\"") && forall k | 0 <= k < |parts| :: IsPart(parts[k])
    ensures QuoteEnd(t, i) == i + |Concat(parts)|
    decreases |parts|
  {
    if parts == [] {
      StartsAt(t, i, Concat(parts) + "\"", 0);
    } else {
      var x, rest := parts[0], Concat(parts[1..]);
      assert Concat(parts) + "\"" == x + (rest + "\"");
      StartsSplit(t, i, x, rest + "\"");
      PartCloses(t, i, x);
      PartsClose(t, i + |x|, parts[1..]);
    }
  }

  lemma ShrinksQuoted(t: string, i: nat, parts: seq<string>)
    requires Stands(t, i, PieceText(Quoted(parts))) && WellFormed(Quoted(parts))
    ensures Shrinks(t, i, PieceText(Quoted(parts)), i + |PieceText(Quoted(parts))|)
  {
    var p := PieceText(Quoted(parts));
    StartsAt(t, i, p, 0);
    StartsSplit(t, i, "\"", Concat(parts) + "\"");
    PartsClose(t, i + 1, parts);
    StringKept(t, i, p);
  }

  lemma {:induction false} LineRuns(t: string, i: nat, j: nat)
    requires i <= j <= |t| && (forall k | i <= k < j :: t[k] != '\n') && (j < |t| ==> t[j] == '\n')
    ensures LineEnd(t, i) == j
    decreases j - i
  {
    if i < j {
      LineRuns(t, i + 1, j);
    }
  }

  lemma ShrinksLine(t: string, i: nat, s: string)
    requires '\n' !in s && Stands(t, i, "//" + (s + "\n"))
    ensures Shrinks(t, i, "", i + |s| + 3)
  {
    var w, j := "//" + (s + "\n"), i + |s| + 2;
    StartsAt(t, i, w, 0);
    StartsAt(t, i, w, 1);
    StartsAt(t, i, w, |s| + 2);
    forall k | i <= k < j ensures t[k] != '\n' {
      StartsAt(t, i, w, k - i);
      assert k >= i + 2 ==> w[k - i] == s[k - i - 2] && s[k - i - 2] in s;
    }
    LineRuns(t, i, j);
    assert MinifyFrom(t, i) == MinifyFrom(t, j) == MinifyFrom(t, j + 1);
    ShrinksSame(t, i, j + 1);
  }

  lemma ShrinksSame(t: string, i: nat, j: nat)
    requires i <= j <= |t| && MinifyFrom(t, i) == MinifyFrom(t, j)
    ensures Shrinks(t, i, "", j)
  {
    ShrinksNone(t, j);
    assert Shrunk(0);
  }

  lemma {:induction false} CommentRuns(t: string, i: nat, j: nat)
    requires i <= j < |t| && t[j] == '*' && At(t, j + 1) == '/'
    requires forall k | i <= k < j :: !(t[k] == '*' && t[k + 1] == '/')
    ensures CommentEnd(t, i) == j
    decreases j - i
  {
    if i < j {
      CommentRuns(t, i + 1, j);
    }
  }

  lemma ShrinksBlock(t: string, i: nat, w: string)
    requires ClosesAtEnd(w) && Stands(t, i, w)
    ensures Shrinks(t, i, "", i + |w|)
  {
    var j := i + |w| - 2;
    StartsAt(t, i, w, 0);
    StartsAt(t, i, w, 1);
    StartsAt(t, i, w, |w| - 2);
    StartsAt(t, i, w, |w| - 1);
    forall k | i <= k < j ensures !(t[k] == '*' && t[k + 1] == '/') {
      StartsAt(t, i, w, k - i);
      StartsAt(t, i, w, k - i + 1);
    }
    CommentRuns(t, i, j);
    ShrinksSame(t, i, j + 2);
  }

  lemma ShrinksPiece(t: string, i: nat, p: Piece)
    requires WellFormed(p) && Stands(t, i, PieceText(p))
    ensures Shrinks(t, i, if Stays(p) then PieceText(p) else "", i + |PieceText(p)|)
  {
    match p {
      case Quoted(parts) => ShrinksQuoted(t, i, parts);
      case LineComment(s) => ShrinksLine(t, i, s);
      case BlockComment(s) => ShrinksBlock(t, i, s);
      case Character(c) =>
        StartsAt(t, i, PieceText(p), 0);
        ShrinksChar(t, i);
      case Space(c) =>
        StartsAt(t, i, PieceText(p), 0);
        ShrinksSame(t, i, i + 1);
    }
  }

  lemma ShrinksFirst(t: string, i: nat, ps: seq<Piece>)
    requires AllFormed(ps) && ps != [] && Stands(t, i, PieceText(ps[0]))
    ensures Shrinks(t, i, if Stays(ps[0]) then PieceText(ps[0]) else "", i + |PieceText(ps[0])|) && AllFormed(ps[1..])
  {
    FirstFormed(ps);
    ShrinksPiece(t, i, ps[0]);
  }

  lemma {:induction false} ShrinksPieces(t: string, i: nat, ps: seq<Piece>)
    requires AllFormed(ps) && Stands(t, i, TextOf(ps))
    ensures Shrinks(t, i, KeptOf(ps), i + |TextOf(ps)|)
    decreases |ps|
  {
    if ps == [] {
      ShrinksNone(t, i);
    } else {
      var p, rest := PieceText(ps[0]), ps[1..];
      StartsSplit(t, i, p, TextOf(rest));
      ShrinksFirst(t, i, ps);
      ShrinksPieces(t, i + |p|, rest);
      ShrinksOn(t, i, if Stays(ps[0]) then p else "", i + |p|, KeptOf(rest), i + |p| + |TextOf(rest)|);
    }
  }

  /** White space and comments go, wherever they stand between the rest; strings stay, whatever is in them. */
  lemma MinifyPieces(ps: seq<Piece>)
    requires AllFormed(ps)
    ensures MinifyFrom(TextOf(ps), 0) == Parsed(KeptOf(ps), |TextOf(ps)|)
  {
    var t := TextOf(ps);
    assert t[0..0 + |t|] == t;
    ShrinksPieces(t, 0, ps);
    assert Shrunk(0);
    assert KeptOf(ps) + "" == KeptOf(ps);
  }

  /** The same text without its comments. */
  ghost function WithoutComments(ps: seq<Piece>): seq<Piece> {
    if ps == [] then []
    else (if ps[0].LineComment? || ps[0].BlockComment? then [] else [ps[0]]) + WithoutComments(ps[1..])
  }

  lemma CommentsDoNotMatter(ps: seq<Piece>)
    requires AllFormed(ps)
    ensures MinifyFrom(TextOf(ps), 0).Parsed? && MinifyFrom(TextOf(WithoutComments(ps)), 0).Parsed?
    ensures MinifyFrom(TextOf(ps), 0).value == MinifyFrom(TextOf(WithoutComments(ps)), 0).value
  {
    WithoutKept(ps);
    MinifyPieces(ps);
    MinifyPieces(WithoutComments(ps));
  }

  lemma {:induction false} WithoutKept(ps: seq<Piece>)
    requires AllFormed(ps)
    ensures KeptOf(WithoutComments(ps)) == KeptOf(ps)
    ensures AllFormed(WithoutComments(ps))
    decreases |ps|
  {
    if ps != [] {
      FirstFormed(ps);
      WithoutKept(ps[1..]);
      assert Shaped(0);
      var rest := WithoutComments(ps[1..]);
      if ps[0].LineComment? || ps[0].BlockComment? {
        assert WithoutComments(ps) == rest;
      } else {
        assert ([ps[0]] + rest)[1..] == rest;
      }
    }
  }

  /** A lone slash stays. */
  lemma ShrinksSlash(t: string, i: nat)
    requires i < |t| && t[i] == '/' && At(t, i + 1) != '/' && At(t, i + 1) != '*'
    ensures Shrinks(t, i, "/", i + 1)
  {
  }

  /** A line comment may end with the text. */
  lemma ShrinksLastLine(t: string, i: nat)
    requires i + 1 < |t| && t[i] == '/' && t[i + 1] == '/' && forall k | i <= k < |t| :: t[k] != '\n'
    ensures Shrinks(t, i, "", |t|)
  {
    LineRuns(t, i, |t|);
    ShrinksSame(t, i, |t|);
  }

  /** The star that opens a comment can close it: of a comment that starts with a slash the rest is left. */
  lemma StarCountsTwice()
    ensures MinifyFrom("/*/1*/", 0) == Parsed("1*/", 6)
  {
    var t := "/*/1*/";
    assert t[0..0 + |t|] == t && t == "/*/" + ("1" + "*/");
    StartsSplit(t, 0, "/*/", "1*/");
    ShrinksBlock(t, 0, "/*/");
    ShrinksChar(t, 3);
    ShrinksChar(t, 4);
    ShrinksSlash(t, 5);
    assert Shrunk(0);
    assert MinifyFrom(t, 6) == Parsed("", 6);
    assert "/" + "" == "/" && "*" + "/" == "*/" && "1" + "*/" == "1*/" && "" + "1*/" == "1*/";
  }

  /** That is the only difference from comments that close at the first mark behind the one that opens them. */
  lemma ClosesUnlessSlash(s: string)
    requires forall k | 0 <= k < |s| - 1 :: !(s[k] == '*' && s[k + 1] == '/')
    ensures ClosesAtEnd("/*" + (s + "*/")) <==> s == "" || s[0] != '/'
  {
    var w := "/*" + (s + "*/");
    assert forall k | 0 <= k < |s| :: w[k + 2] == s[k];
    if s != "" && s[0] == '/' {
      assert w[1] == '*' && w[1 + 1] == '/';
    } else {
      forall k | 0 <= k < |w| - 2 ensures !(w[k] == '*' && w[k + 1] == '/') {
        if 2 <= k < |s| + 1 {
          assert w[k] == s[k - 2] && w[k + 1] == s[k - 1];
        }
      }
    }
  }
}
