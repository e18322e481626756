/**
 * SignatureUtils.java: the types named by a generic signature, as descriptor strings (the
 * decoding of each descriptor by org.objectweb.asm.Type is not part of this model).
 *
 * A signature of the form `L<name><<arguments>>;` gives the descriptor of the raw type and
 * then, recursively, the types of its arguments; any other text is cut at each `;` with
 * String.split and gives one descriptor per piece.
 */
module Signatures {
  import opened Wrappers
  import opened Sequences

  /** The characters java.util.regex's `.` does not match by default. */
  predicate LineTerminator(c: char) {
    c == '\n' || c == '\r' || c == '\U{85}' || c == '\U{2028}' || c == '\U{2029}'
  }

  /** No character of `s` is a line terminator. */
  predicate SingleLine(s: string) {
    forall i :: 0 <= i < |s| ==> !LineTerminator(s[i])
  }

  /**
   * `^(L[^<;]+)<(.+)>;$` with Matcher.matches: the groups when the whole text matches.
   * Group 1 cannot contain `<`, so it always ends just before the first `<`; group 2 is
   * everything between that `<` and the final `>;`.
   */
  function Match(s: string): (r: Option<(string, string)>)
    ensures r.Some? ==> s == r.value.0 + "<" + r.value.1 + ">;"
    ensures r.Some? ==> |r.value.0| >= 2 && r.value.0[0] == 'L' && '<' !in r.value.0 && ';' !in r.value.0
    ensures r.Some? ==> r.value.1 != [] && SingleLine(r.value.1) && |r.value.1| < |s|
  {
    var p := IndexOf(s, '<');
    if 2 <= p && s[0] == 'L' && ';' !in s[..p] && p + 4 <= |s| && s[|s| - 2..] == ">;"
       && SingleLine(s[p + 1..|s| - 2])
    then
      assert s == s[..p] + "<" + s[p + 1..|s| - 2] + ">;";
      Some((s[..p], s[p + 1..|s| - 2]))
    else None
  }

  /** Every text of the regex's shape matches, with exactly those groups. */
  lemma MatchComplete(raw: string, arguments: string)
    requires |raw| >= 2 && raw[0] == 'L' && '<' !in raw && ';' !in raw
    requires arguments != [] && SingleLine(arguments)
    ensures Match(raw + "<" + arguments + ">;") == Some((raw, arguments))
  {
    var s := raw + "<" + arguments + ">;";
    IndexOfAt(s, |raw|, '<');
    assert s[..|raw|] == raw;
    assert s[|raw| + 1..|s| - 2] == arguments;
  }

  /** A text without `<` never matches. */
  lemma NoAngleNoMatch(s: string)
    requires '<' !in s
    ensures Match(s) == None
  {
  }

  /** The pieces between the `;` of `s`, empty ones included. */
  function Pieces(s: string): (r: seq<string>)
    ensures |r| >= 1 && forall i :: 0 <= i < |r| ==> ';' !in r[i]
    decreases |s|
  {
    var i := IndexOf(s, ';');
    if i == -1 then [s] else [s[..i]] + Pieces(s[i + 1..])
  }

  /** The pieces joined back with `;`. */
  function Join(ps: seq<string>): string
    requires |ps| >= 1
  {
    if |ps| == 1 then ps[0] else ps[0] + ";" + Join(ps[1..])
  }

  /** Joining a first piece in front of others puts one `;` between them. */
  lemma JoinCons(a: string, ps: seq<string>)
    requires |ps| >= 1
    ensures Join([a] + ps) == a + ";" + Join(ps)
  {
    assert ([a] + ps)[1..] == ps;
  }

  /** Cutting at each `;` and joining with `;` gives the text back. */
  lemma {:induction false} JoinPieces(s: string)
    ensures Join(Pieces(s)) == s
    decreases |s|
  {
    var i := IndexOf(s, ';');
    if i != -1 {
      JoinPieces(s[i + 1..]);
      JoinCons(s[..i], Pieces(s[i + 1..]));
      assert s == s[..i] + ";" + s[i + 1..];
    }
  }

  /** Joining pieces without `;` and cutting again gives the same pieces. */
  lemma {:induction false} PiecesJoin(ps: seq<string>)
    requires |ps| >= 1 && forall i :: 0 <= i < |ps| ==> ';' !in ps[i]
    ensures Pieces(Join(ps)) == ps
  {
    if |ps| > 1 {
      var s := Join(ps);
      PiecesJoin(ps[1..]);
      JoinSlices(ps);
      IndexOfAt(s, |ps[0]|, ';');
    }
  }

  /** Around the first `;` of a join lie the first piece and the join of the rest. */
  lemma JoinSlices(ps: seq<string>)
    requires |ps| > 1
    ensures |ps[0]| < |Join(ps)| && Join(ps)[|ps[0]|] == ';'
    ensures Join(ps)[..|ps[0]|] == ps[0] && Join(ps)[|ps[0]| + 1..] == Join(ps[1..])
  {
  }

  /** The list without its trailing empty strings. */
  function DropTrailingEmpty(ps: seq<string>): (r: seq<string>)
    ensures |r| <= |ps| && r == ps[..|r|]
    ensures r == [] || r[|r| - 1] != ""
    ensures forall i :: |r| <= i < |ps| ==> ps[i] == ""
  {
    if ps != [] && ps[|ps| - 1] == "" then DropTrailingEmpty(ps[..|ps| - 1]) else ps
  }

  /**
   * String.split(";"): the text itself when it has no `;`, otherwise its pieces without the
   * trailing empty ones.
   */
  function Split(s: string): (r: seq<string>)
    ensures ';' !in s ==> r == [s]
    ensures ';' in s ==> r == DropTrailingEmpty(Pieces(s))
  {
    if ';' in s then DropTrailingEmpty(Pieces(s)) else [s]
  }

  /** Each piece with its `;` put back: the descriptors of the else branch. */
  function WithSemicolons(ps: seq<string>): (r: seq<string>)
    ensures |r| == |ps| && forall i :: 0 <= i < |ps| ==> r[i] == ps[i] + ";"
  {
    seq(|ps|, i requires 0 <= i < |ps| => ps[i] + ";")
  }

  /**
   * The descriptors parseTypesFromGenericSignature adds for `signature`, in order; each ends
   * with `;`.
   */
  function Descriptors(signature: string): (r: seq<string>)
    ensures Match(signature).None? ==> |r| == |Split(signature)|
    decreases |signature|
  {
    var m := Match(signature);
    if m.Some? then [m.value.0 + ";"] + Descriptors(m.value.1)
    else WithSemicolons(Split(signature))
  }

  /** Each string of `ds` is non-empty and ends with `;`. */
  predicate EndWithSemicolon(ds: seq<string>) {
    forall i :: 0 <= i < |ds| ==> |ds[i]| >= 1 && ds[i][|ds[i]| - 1] == ';'
  }

  /** Every descriptor parseTypesFromGenericSignature adds ends with `;`. */
  lemma {:induction false} DescriptorsEndWithSemicolon(signature: string)
    ensures EndWithSemicolon(Descriptors(signature))
    decreases |signature|
  {
    var m := Match(signature);
    if m.Some? {
      DescriptorsEndWithSemicolon(m.value.1);
      ConsEndsWithSemicolon(m.value.0, Descriptors(m.value.1));
    } else {
      WithSemicolonsEnd(Split(signature));
    }
  }

  /** A piece with its `;` put back ends with `;`. */
  lemma WithSemicolonsEnd(ps: seq<string>)
    ensures EndWithSemicolon(WithSemicolons(ps))
  {
    forall i | 0 <= i < |ps|
      ensures (ps[i] + ";")[|ps[i]|] == ';'
    {
    }
  }

  /** The raw type's descriptor in front of descriptors that end with `;`. */
  lemma ConsEndsWithSemicolon(raw: string, ds: seq<string>)
    requires EndWithSemicolon(ds)
    ensures EndWithSemicolon([raw + ";"] + ds)
  {
    var r := [raw + ";"] + ds;
    assert r[0][|raw|] == ';';
    assert forall i :: 1 <= i < |r| ==> r[i] == ds[i - 1];
  }

  /**
   * parseTypesFromGenericSignature: appends to `types` the raw type and then recurses on the
   * arguments, or appends one descriptor per piece of the split.
   */
  method ParseTypesFromGenericSignature(types: seq<string>, signature: string) returns (r: seq<string>)
    ensures r == types + Descriptors(signature)
    decreases |signature|
  {
    var m := Match(signature);
    if m.Some? {
      r := types + [m.value.0 + ";"];
      r := ParseTypesFromGenericSignature(r, m.value.1);
    } else {
      var pieces := Split(signature);
      r := types;
      for i := 0 to |pieces|
        invariant r == types + WithSemicolons(pieces[..i])
      {
        r := r + [pieces[i] + ";"];
      }
      assert pieces[..|pieces|] == pieces;
    }
  }

  /** getTypesFromGenericSignature: no types for a null signature. */
  method GetTypesFromGenericSignature(signature: Option<string>) returns (types: seq<string>)
    ensures signature.None? ==> types == []
    ensures signature.Some? ==> types == Descriptors(signature.value)
  {
    if signature.None? {
      return [];
    }
    types := ParseTypesFromGenericSignature([], signature.value);
  }

  /** A matching signature: the raw type's descriptor, then the descriptors of the arguments. */
  lemma DescriptorsOfGeneric(raw: string, arguments: string)
    requires |raw| >= 2 && raw[0] == 'L' && '<' !in raw && ';' !in raw
    requires arguments != [] && SingleLine(arguments)
    ensures Descriptors(raw + "<" + arguments + ">;") == [raw + ";"] + Descriptors(arguments)
  {
    MatchComplete(raw, arguments);
  }

  /** A `;` with no `<` before it rules the regex out: group 1 cannot hold a `;`. */
  lemma SemicolonFirstNoMatch(s: string, j: int)
    requires 0 <= j < |s| && s[j] == ';' && '<' !in s[..j]
    ensures Match(s) == None
  {
    var p := IndexOf(s, '<');
    if p != -1 {
      assert p > j;
      assert s[..p][j] == ';';
    }
  }

  /**
   * A text that does not match and is joined from several pieces without `;`: one descriptor
   * per piece, trailing empty pieces left out.
   */
  lemma DescriptorsOfPieces(ps: seq<string>)
    requires |ps| >= 2 && forall i :: 0 <= i < |ps| ==> ';' !in ps[i]
    requires Match(Join(ps)) == None
    ensures Descriptors(Join(ps)) == WithSemicolons(DropTrailingEmpty(ps))
  {
    var s := Join(ps);
    PiecesJoin(ps);
    assert s == ps[0] + ";" + Join(ps[1..]);
    assert s[|ps[0]|] == ';';
    assert Split(s) == DropTrailingEmpty(ps);
  }

  /** Two pieces, the second empty: the text of one plain type descriptor. */
  lemma JoinOne(a: string)
    ensures Join([a, ""]) == a + ";"
  {
    assert [a, ""][1..] == [""];
  }

  /** Three pieces, the last empty: the text of two plain type descriptors. */
  lemma JoinTwo(a1: string, a2: string)
    ensures Join([a1, a2, ""]) == a1 + ";" + a2 + ";"
  {
    assert [a1, a2, ""][1..] == [a2, ""];
    JoinOne(a2);
  }

  /** Trailing empty pieces after non-empty ones are dropped. */
  lemma DropOneEmpty(ps: seq<string>)
    requires ps != [] && ps[|ps| - 1] != ""
    ensures DropTrailingEmpty(ps + [""]) == ps
  {
    assert (ps + [""])[..|ps|] == ps;
  }

  /** One plain type descriptor, `;` included: itself. */
  lemma PlainOne(arg: string)
    requires arg != [] && '<' !in arg && ';' !in arg
    ensures Descriptors(arg + ";") == [arg + ";"]
  {
    JoinOne(arg);
    assert '<' !in arg + ";";
    NoAngleNoMatch(arg + ";");
    DescriptorsOfPieces([arg, ""]);
    DropOneEmpty([arg]);
  }

  /** Two plain type descriptors, each with its `;`: both, in order. */
  lemma PlainTwo(a1: string, a2: string)
    requires a1 != [] && '<' !in a1 && ';' !in a1
    requires a2 != [] && '<' !in a2 && ';' !in a2
    ensures Descriptors(a1 + ";" + a2 + ";") == [a1 + ";", a2 + ";"]
  {
    JoinTwo(a1, a2);
    assert '<' !in a1 + ";" + a2 + ";";
    NoAngleNoMatch(a1 + ";" + a2 + ";");
    DescriptorsOfPieces([a1, a2, ""]);
    DropOneEmpty([a1, a2]);
  }

  /** A generic type with one argument of a plain class type: the raw type, then the argument. */
  lemma OneArgument(raw: string, arg: string)
    requires |raw| >= 2 && raw[0] == 'L' && '<' !in raw && ';' !in raw
    requires arg != [] && '<' !in arg && ';' !in arg && SingleLine(arg)
    ensures Descriptors(raw + "<" + arg + ";>;") == [raw + ";", arg + ";"]
  {
    assert SingleLine(arg + ";");
    assert raw + "<" + arg + ";>;" == raw + "<" + (arg + ";") + ">;";
    DescriptorsOfGeneric(raw, arg + ";");
    PlainOne(arg);
  }

  /** The text of a generic type with two plain arguments, with its group 2 apart. */
  lemma TwoArgumentsText(raw: string, a1: string, a2: string)
    requires SingleLine(a1) && SingleLine(a2)
    ensures raw + "<" + a1 + ";" + a2 + ";>;" == raw + "<" + (a1 + ";" + a2 + ";") + ">;"
    ensures SingleLine(a1 + ";" + a2 + ";")
  {
    assert ";>;" == ";" + ">;";
  }

  /** A generic type with two arguments of plain class types: the raw type, then both arguments. */
  lemma TwoArguments(raw: string, a1: string, a2: string)
    requires |raw| >= 2 && raw[0] == 'L' && '<' !in raw && ';' !in raw
    requires a1 != [] && '<' !in a1 && ';' !in a1 && SingleLine(a1)
    requires a2 != [] && '<' !in a2 && ';' !in a2 && SingleLine(a2)
    ensures Descriptors(raw + "<" + a1 + ";" + a2 + ";>;") == [raw + ";", a1 + ";", a2 + ";"]
  {
    var arguments := a1 + ";" + a2 + ";";
    TwoArgumentsText(raw, a1, a2);
    DescriptorsOfGeneric(raw, arguments);
    PlainTwo(a1, a2);
  }

  /** The pieces of a nested generic's arguments, joined. */
  lemma JoinNested(a1: string, raw2: string, a2: string, a3: string)
    ensures Join([a1, raw2 + "<" + a2, a3, ">", ""]) == a1 + ";" + raw2 + "<" + a2 + ";" + a3 + ";>;"
  {
    var ps := [a1, raw2 + "<" + a2, a3, ">", ""];
    assert ps == [a1] + [raw2 + "<" + a2] + [a3] + [">", ""];
    JoinCons(a1, ps[1..]);
    assert ps[1..] == [raw2 + "<" + a2] + ps[2..];
    JoinCons(raw2 + "<" + a2, ps[2..]);
    assert ps[2..] == [a3] + [">", ""];
    JoinCons(a3, [">", ""]);
    JoinOne(">");
  }

  /** The text of the nested generic, with its group 2 apart. */
  lemma NestedArgumentsText(raw: string, a1: string, raw2: string, a2: string, a3: string)
    requires '<' !in a1 && SingleLine(a1) && SingleLine(raw2) && SingleLine(a2) && SingleLine(a3)
    ensures var arguments := a1 + ";" + raw2 + "<" + a2 + ";" + a3 + ";>;";
      raw + "<" + a1 + ";" + raw2 + "<" + a2 + ";" + a3 + ";>;>;" == raw + "<" + arguments + ">;"
      && SingleLine(arguments) && arguments[|a1|] == ';' && '<' !in arguments[..|a1|]
  {
    var arguments := a1 + ";" + raw2 + "<" + a2 + ";" + a3 + ";>;";
    assert arguments[..|a1|] == a1;
    assert ";>;>;" == ";>;" + ">;";
  }

  /** Only the last of the nested generic's pieces is empty. */
  lemma DropNestedEmpty(a1: string, raw2: string, a2: string, a3: string)
    ensures DropTrailingEmpty([a1, raw2 + "<" + a2, a3, ">", ""]) == [a1, raw2 + "<" + a2, a3, ">"]
  {
    var ps := [a1, raw2 + "<" + a2, a3, ">", ""];
    assert ps == ps[..4] + [""];
    DropOneEmpty(ps[..4]);
  }

  /** Four pieces, each with its `;` put back. */
  lemma FourWithSemicolons(a: string, b: string, c: string, d: string)
    ensures WithSemicolons([a, b, c, d]) == [a + ";", b + ";", c + ";", d + ";"]
  {
  }

  /** The nested generic's group 2 does not match again and is cut into four pieces. */
  lemma NestedInner(a1: string, raw2: string, a2: string, a3: string)
    requires '<' !in a1 && ';' !in a1 && ';' !in raw2 && ';' !in a2 && ';' !in a3
    requires SingleLine(a1) && SingleLine(raw2) && SingleLine(a2) && SingleLine(a3)
    ensures Descriptors(a1 + ";" + raw2 + "<" + a2 + ";" + a3 + ";>;")
      == [a1 + ";", raw2 + "<" + a2 + ";", a3 + ";", ">" + ";"]
  {
    var ps := [a1, raw2 + "<" + a2, a3, ">", ""];
    var arguments := a1 + ";" + raw2 + "<" + a2 + ";" + a3 + ";>;";
    JoinNested(a1, raw2, a2, a3);
    NestedArgumentsText("", a1, raw2, a2, a3);
    SemicolonFirstNoMatch(arguments, |a1|);
    DescriptorsOfPieces(ps);
    DropNestedEmpty(a1, raw2, a2, a3);
    FourWithSemicolons(a1, raw2 + "<" + a2, a3, ">");
  }

  /**
   * A generic type whose second argument is itself generic (the shape of
   * Map<String, Map<Integer, Float>>): the inner arguments are not parsed again, since a `;`
   * comes before their `<`, and are cut at each `;` instead, giving five descriptors.
   */
  lemma NestedArguments(raw: string, a1: string, raw2: string, a2: string, a3: string)
    requires |raw| >= 2 && raw[0] == 'L' && '<' !in raw && ';' !in raw
    requires '<' !in a1 && ';' !in a1 && ';' !in raw2 && '<' !in raw2 && ';' !in a2 && ';' !in a3
    requires SingleLine(a1) && SingleLine(raw2) && SingleLine(a2) && SingleLine(a3)
    ensures Descriptors(raw + "<" + a1 + ";" + raw2 + "<" + a2 + ";" + a3 + ";>;>;")
      == [raw + ";", a1 + ";", raw2 + "<" + a2 + ";", a3 + ";", ">" + ";"]
  {
    NestedArgumentsText(raw, a1, raw2, a2, a3);
    DescriptorsOfGeneric(raw, a1 + ";" + raw2 + "<" + a2 + ";" + a3 + ";>;");
    NestedInner(a1, raw2, a2, a3);
    PrependOne(raw + ";", a1 + ";", raw2 + "<" + a2 + ";", a3 + ";", ">" + ";");
  }

  /** A list of five as its head in front of the other four. */
  lemma PrependOne(a: string, b: string, c: string, d: string, e: string)
    ensures [a] + [b, c, d, e] == [a, b, c, d, e]
  {
  }

  /** Ljava/util/List<Ljava/lang/String;>; gives the List descriptor, then the String one. */
  lemma ListOfString()
    ensures Descriptors("Ljava/util/List" + "<" + "Ljava/lang/String" + ";>;")
      == ["Ljava/util/List" + ";", "Ljava/lang/String" + ";"]
  {
    OneArgument("Ljava/util/List", "Ljava/lang/String");
  }

  /** The Map<String, Integer> signature gives three descriptors: Map, String, Integer. */
  lemma MapOfStringToInteger()
    ensures Descriptors("Ljava/util/Map" + "<" + "Ljava/lang/String" + ";" + "Ljava/lang/Integer" + ";>;")
      == ["Ljava/util/Map" + ";", "Ljava/lang/String" + ";", "Ljava/lang/Integer" + ";"]
  {
    TwoArguments("Ljava/util/Map", "Ljava/lang/String", "Ljava/lang/Integer");
  }

  /** The Map<String, Map<Integer, Float>> signature gives five descriptors. */
  lemma NestedMapSize()
    ensures |Descriptors("Ljava/util/Map" + "<" + "Ljava/lang/String" + ";" + "Ljava/util/Map" + "<"
                         + "Ljava/lang/Integer" + ";" + "Ljava/lang/Float" + ";>;>;")| == 5
  {
    NestedArguments("Ljava/util/Map", "Ljava/lang/String", "Ljava/util/Map", "Ljava/lang/Integer", "Ljava/lang/Float");
  }
}
