/**
 * The greeting and the avatar letters of components/dashboard/header.tsx,
 * both derived from the signed-in user's name.
 */
module Header {
  import opened Wrappers

  /** `s.split(" ")`: the pieces between single spaces, empty pieces included. */
  function Split(s: string): (pieces: seq<string>)
    ensures |pieces| >= 1
    ensures forall i :: 0 <= i < |pieces| ==> ' ' !in pieces[i]
    ensures var first := pieces[0];
            first <= s && (|first| == |s| || s[|first|] == ' ')
  {
    if s == [] then [""]
    else
      var rest := Split(s[1..]);
      if s[0] == ' ' then [""] + rest
      else [[s[0]] + rest[0]] + rest[1..]
  }

  /** `pieces.join(" ")`. */
  function Join(pieces: seq<string>): string {
    if pieces == [] then ""
    else if |pieces| == 1 then pieces[0]
    else pieces[0] + " " + Join(pieces[1..])
  }

  /** Splitting loses nothing: joining the pieces with single spaces gives the name back. */
  lemma {:induction false} JoinSplit(s: string)
    ensures Join(Split(s)) == s
  {
    if s != [] {
      var rest := Split(s[1..]);
      JoinSplit(s[1..]);
      if s[0] == ' ' {
        assert s == [' '] + s[1..];
      } else {
        var pieces := Split(s);
        if |rest| == 1 {
          assert pieces == [[s[0]] + rest[0]];
        } else {
          assert pieces[1..] == rest[1..];
          assert Join(rest) == rest[0] + " " + Join(rest[1..]);
        }
        assert s == [s[0]] + s[1..];
      }
    }
  }

  /** The fallback greeting. */
  const DefaultFirstName: string := "Tsedeke"

  /**
   * `user?.name?.split(" ")[0] || "Tsedeke"`: the name up to its first space,
   * unless there is no name or it starts with a space.
   */
  function FirstName(name: Option<string>): (r: string)
    ensures r != [] && ' ' !in r
    ensures r == DefaultFirstName <==> name.None? || Split(name.value)[0] == "" || Split(name.value)[0] == DefaultFirstName
    ensures name.Some? && r != DefaultFirstName ==>
              r <= name.value && (|r| == |name.value| || name.value[|r|] == ' ')
  {
    if name.None? then DefaultFirstName
    else
      var first := Split(name.value)[0];
      if first == "" then DefaultFirstName else first
  }

  /** `toUpperCase` on one character, ASCII letters only. */
  function UpperChar(c: char): (u: char)
    ensures 'a' <= c <= 'z' ==> 'A' <= u <= 'Z' && u as int == c as int - 32
    ensures !('a' <= c <= 'z') ==> u == c
  {
    if 'a' <= c <= 'z' then (c as int - 32) as char else c
  }

  /**
   * `pieces.map(n => n[0]).join("")`: the first character of each piece; an
   * empty piece gives `undefined`, which `join` writes as nothing.
   */
  function Heads(pieces: seq<string>): string {
    if pieces == [] then []
    else (if pieces[0] == [] then [] else [pieces[0][0]]) + Heads(pieces[1..])
  }

  /** At most one letter per piece, one for each when none is empty, none exactly when all are empty. */
  lemma {:induction false} HeadsCount(pieces: seq<string>)
    ensures |Heads(pieces)| <= |pieces|
    ensures NoneEmpty(pieces) ==> |Heads(pieces)| == |pieces|
    ensures Heads(pieces) == [] <==> AllEmpty(pieces)
  {
    if pieces != [] {
      var tail := pieces[1..];
      var h: string := if pieces[0] == [] then [] else [pieces[0][0]];
      assert Heads(pieces) == h + Heads(tail);
      HeadsCount(tail);
      assert AllEmpty(pieces) <==> pieces[0] == [] && AllEmpty(tail) by {
        assert forall j :: 0 <= j < |tail| ==> tail[j] == pieces[j + 1];
      }
      assert NoneEmpty(pieces) ==> pieces[0] != [] && NoneEmpty(tail) by {
        assert forall j :: 0 <= j < |tail| ==> tail[j] == pieces[j + 1];
      }
    }
  }

  predicate AllEmpty(pieces: seq<string>) {
    forall i :: 0 <= i < |pieces| ==> pieces[i] == []
  }

  predicate NoneEmpty(pieces: seq<string>) {
    forall i :: 0 <= i < |pieces| ==> pieces[i] != []
  }

  /** The heads of two runs of pieces are the heads of the first run, then those of the second. */
  lemma {:induction false} HeadsAppend(a: seq<string>, b: seq<string>)
    ensures Heads(a + b) == Heads(a) + Heads(b)
  {
    if a == [] {
      assert a + b == b;
    } else {
      var h: string := if a[0] == [] then [] else [a[0][0]];
      assert (a + b)[0] == a[0] && (a + b)[1..] == a[1..] + b;
      HeadsAppend(a[1..], b);
      calc {
        Heads(a + b);
        h + Heads(a[1..] + b);
        h + (Heads(a[1..]) + Heads(b));
        (h + Heads(a[1..])) + Heads(b);
        Heads(a) + Heads(b);
      }
    }
  }

  /**
   * Each piece contributes in place: its first character when it is not
   * empty, nothing when it is, between the letters of the pieces before it
   * and those of the pieces after it.
   */
  lemma HeadsOfPiece(a: seq<string>, p: string, b: seq<string>)
    ensures Heads(a + [p] + b) == Heads(a) + (if p == [] then "" else [p[0]]) + Heads(b)
  {
    HeadsAppend(a + [p], b);
    HeadsAppend(a, [p]);
    assert Heads([p]) == (if p == [] then "" else [p[0]]) by {
      assert [p][1..] == [];
    }
  }

  /** The letters' position: letter i of the heads is the head of some piece. */
  lemma {:induction false} HeadsFromPieces(pieces: seq<string>, i: nat)
    requires i < |Heads(pieces)|
    ensures exists j :: 0 <= j < |pieces| && pieces[j] != [] && Heads(pieces)[i] == pieces[j][0]
  {
    if pieces[0] != [] && i == 0 {
      assert Heads(pieces)[0] == pieces[0][0];
    } else {
      var k := if pieces[0] == [] then i else i - 1;
      assert Heads(pieces)[i] == Heads(pieces[1..])[k];
      HeadsFromPieces(pieces[1..], k);
      var j :| 0 <= j < |pieces[1..]| && pieces[1..][j] != [] && Heads(pieces[1..])[k] == pieces[1..][j][0];
      assert pieces[j + 1] == pieces[1..][j];
    }
  }

  function Upper(s: string): (r: string)
    ensures |r| == |s| && forall i :: 0 <= i < |s| ==> r[i] == UpperChar(s[i])
  {
    seq(|s|, i requires 0 <= i < |s| => UpperChar(s[i]))
  }

  /** A name of spaces only splits into empty pieces. */
  lemma {:induction false} SpacesSplitEmpty(s: string)
    ensures (forall i :: 0 <= i < |s| ==> s[i] == ' ') ==> forall i :: 0 <= i < |Split(s)| ==> Split(s)[i] == []
  {
    if s != [] && s[0] == ' ' {
      SpacesSplitEmpty(s[1..]);
    }
  }

  /** The fallback avatar letter. */
  const DefaultInitials: string := "U"

  /**
   * The avatar letters: the upper-cased first letter of every piece of the
   * name, at most one per piece, or "U" when that leaves nothing.
   */
  function Initials(name: Option<string>): (r: string)
    ensures r != []
    ensures name.None? ==> r == DefaultInitials
    ensures name.Some? ==> |r| <= |Split(name.value)|
    ensures name.Some? && (forall i :: 0 <= i < |name.value| ==> name.value[i] == ' ') ==> r == DefaultInitials
    ensures name.Some? && Heads(Split(name.value)) != [] ==> r == Upper(Heads(Split(name.value)))
    ensures name.Some? && Heads(Split(name.value)) == [] ==> r == DefaultInitials
  {
    if name.None? then DefaultInitials
    else
      var letters := Upper(Heads(Split(name.value)));
      SpacesSplitEmpty(name.value);
      HeadsCount(Split(name.value));
      if letters == [] then DefaultInitials else letters
  }

  /** Each avatar letter is the upper-cased first character of one piece of the name. */
  lemma InitialsAreHeads(name: string, i: nat)
    requires Initials(Some(name)) != DefaultInitials && i < |Initials(Some(name))|
    ensures exists j :: 0 <= j < |Split(name)| && Split(name)[j] != [] && Initials(Some(name))[i] == UpperChar(Split(name)[j][0])
  {
    HeadsFromPieces(Split(name), i);
  }

  /** A word without spaces is one piece. */
  lemma {:induction false} SplitWord(w: string)
    requires ' ' !in w
    ensures Split(w) == [w]
  {
    if w != [] {
      assert w[0] in w;
      assert forall c :: c in w[1..] ==> c in w;
      SplitWord(w[1..]);
      assert w == [w[0]] + w[1..];
    }
  }

  /** A word followed by a space is the first piece, the rest splits on its own. */
  lemma {:induction false} SplitAtSpace(w: string, rest: string)
    requires ' ' !in w
    ensures Split(w + " " + rest) == [w] + Split(rest)
  {
    if w == [] {
      assert w + " " + rest == [' '] + rest;
    } else {
      assert w[0] in w;
      assert forall c :: c in w[1..] ==> c in w;
      SplitAtSpace(w[1..], rest);
      assert (w + " " + rest)[1..] == w[1..] + " " + rest;
      assert w == [w[0]] + w[1..];
    }
  }

  /** A first and a last name: the greeting is the first name, the avatar their two initials ("jane doe" gives "JD"). */
  lemma TwoWordName(first: string, last: string)
    requires first != [] && last != [] && ' ' !in first && ' ' !in last
    ensures FirstName(Some(first + " " + last)) == first
    ensures Initials(Some(first + " " + last)) == [UpperChar(first[0]), UpperChar(last[0])]
  {
    SplitWord(last);
    SplitAtSpace(first, last);
    assert Heads([first, last]) == [first[0], last[0]] by {
      assert Heads([first, last][1..]) == [last[0]];
    }
  }

  /** An empty name falls back to both defaults. */
  lemma EmptyName()
    ensures FirstName(Some("")) == DefaultFirstName && Initials(Some("")) == DefaultInitials
  {
    assert Split("") == [""];
  }
}
