/**
 * The few operations of java.lang.String and java.util.StringTokenizer that the
 * localization service relies on, written out over `seq<char>`.
 */
module JavaStrings {

  /** Whether every character of `s` is `c` (vacuously true of ""). */
  predicate OnlyChar(s: string, c: char) {
    forall j :: 0 <= j < |s| ==> s[j] == c
  }

  /** `String.indexOf(char)`: the first position of `c`, or -1. */
  function IndexOf(s: string, c: char): (i: int)
    ensures i == -1 <==> c !in s
    ensures i != -1 ==> 0 <= i < |s| && s[i] == c && forall j :: 0 <= j < i ==> s[j] != c
  {
    if s == [] then -1
    else if s[0] == c then 0
    else
      var k := IndexOf(s[1..], c);
      if k == -1 then -1 else 1 + k
  }

  /**
   * The pieces of `s` between occurrences of `c`, empty pieces included:
   * the string "a__b" has the pieces "a", "", "b".
   */
  function Pieces(s: string, c: char): (r: seq<string>)
    ensures |r| >= 1
    ensures forall i :: 0 <= i < |r| ==> c !in r[i]
  {
    if s == [] then [""]
    else
      var rest := Pieces(s[1..], c);
      if s[0] == c then [""] + rest
      else [[s[0]] + rest[0]] + rest[1..]
  }

  /** The inverse of `Pieces`: the pieces glued together with `c`. */
  function Join(ps: seq<string>, c: char): string
    requires |ps| >= 1
  {
    if |ps| == 1 then ps[0] else ps[0] + [c] + Join(ps[1..], c)
  }

  /** Cutting a string at `c` and gluing it back gives the string. */
  lemma {:induction false} JoinPieces(s: string, c: char)
    ensures Join(Pieces(s, c), c) == s
  {
    if s != [] {
      JoinPieces(s[1..], c);
      var rest := Pieces(s[1..], c);
      if s[0] != c {
        var first := [s[0]] + rest[0];
        var ps := [first] + rest[1..];
        if |rest| > 1 {
          assert ps[1..] == rest[1..];
          calc {
            Join(ps, c);
            first + [c] + Join(rest[1..], c);
            [s[0]] + (rest[0] + [c] + Join(rest[1..], c));
            [s[0]] + Join(rest, c);
          }
        }
      } else {
        assert ([""] + rest)[1..] == rest;
      }
    }
  }

  /** Gluing pieces that do not contain `c` and cutting again gives the pieces back. */
  lemma {:induction false} PiecesJoin(ps: seq<string>, c: char)
    requires |ps| >= 1
    requires forall i :: 0 <= i < |ps| ==> c !in ps[i]
    ensures Pieces(Join(ps, c), c) == ps
  {
    if |ps| == 1 {
      PiecesOfPlain(ps[0], c);
    } else {
      PiecesJoin(ps[1..], c);
      PiecesPrepend(ps[0], Join(ps[1..], c), c);
    }
  }

  /** A string without `c` is a single piece. */
  lemma {:induction false} PiecesOfPlain(s: string, c: char)
    requires c !in s
    ensures Pieces(s, c) == [s]
  {
    if s != [] {
      assert c !in s[1..] by {
        forall j | 0 <= j < |s| - 1 ensures s[1..][j] != c { assert s[1..][j] == s[j + 1]; }
      }
      PiecesOfPlain(s[1..], c);
      assert [s[0]] + s[1..] == s;
    }
  }

  /** Cutting `w + [c] + t`, with `c` not in `w`, yields `w` followed by the pieces of `t`. */
  lemma {:induction false} PiecesPrepend(w: string, t: string, c: char)
    requires c !in w
    ensures Pieces(w + [c] + t, c) == [w] + Pieces(t, c)
  {
    var s := w + [c] + t;
    if w == [] {
      assert s[0] == c && s[1..] == t;
    } else {
      assert s[0] == w[0];
      assert s[1..] == w[1..] + [c] + t;
      assert c !in w[1..] by {
        forall j | 0 <= j < |w| - 1 ensures w[1..][j] != c { assert w[1..][j] == w[j + 1]; }
      }
      PiecesPrepend(w[1..], t, c);
      assert [w[0]] + w[1..] == w;
    }
  }

  /** The first piece is the text before the first `c` (all of `s` if there is none). */
  lemma {:induction false} FirstPiece(s: string, c: char)
    ensures var i := IndexOf(s, c);
            Pieces(s, c)[0] == if i == -1 then s else s[..i]
  {
    if s != [] && s[0] != c {
      FirstPiece(s[1..], c);
      var k := IndexOf(s[1..], c);
      if k != -1 {
        assert [s[0]] + s[1..][..k] == s[..k + 1];
      } else {
        assert [s[0]] + s[1..] == s;
      }
    }
  }

  /** Every piece is empty exactly when the string consists of `c` only. */
  lemma {:induction false} PiecesAllEmpty(s: string, c: char)
    ensures (forall i :: 0 <= i < |Pieces(s, c)| ==> Pieces(s, c)[i] == "") <==> OnlyChar(s, c)
  {
    if s != [] {
      PiecesAllEmpty(s[1..], c);
      var rest := Pieces(s[1..], c);
      if s[0] == c {
        var ps := [""] + rest;
        assert Pieces(s, c) == ps;
        assert (forall i :: 0 <= i < |ps| ==> ps[i] == "") <==> (forall i :: 0 <= i < |rest| ==> rest[i] == "") by {
          assert forall i :: 0 <= i < |rest| ==> ps[i + 1] == rest[i];
        }
        assert OnlyChar(s[1..], c) ==> OnlyChar(s, c) by {
          if OnlyChar(s[1..], c) {
            forall j | 1 <= j < |s| ensures s[j] == c { assert s[j] == s[1..][j - 1]; }
          }
        }
        assert OnlyChar(s, c) ==> OnlyChar(s[1..], c) by {
          if OnlyChar(s, c) {
            forall j | 0 <= j < |s| - 1 ensures s[1..][j] == c { assert s[1..][j] == s[j + 1]; }
          }
        }
      } else {
        assert Pieces(s, c)[0] != "";
        assert !OnlyChar(s, c);
      }
    }
  }

  /** A string not ending in `c` has a non-empty last piece. */
  lemma {:induction false} LastPieceNonEmpty(s: string, c: char)
    requires s != [] && s[|s| - 1] != c
    ensures Pieces(s, c)[|Pieces(s, c)| - 1] != ""
  {
    if |s| > 1 {
      assert s[1..][|s[1..]| - 1] == s[|s| - 1];
      LastPieceNonEmpty(s[1..], c);
    }
  }

  /** The longest prefix of `ps` that does not end in an empty string. */
  function StripTrailingEmpty(ps: seq<string>): (r: seq<string>)
    ensures r <= ps
    ensures r == [] || r[|r| - 1] != ""
    ensures forall i :: |r| <= i < |ps| ==> ps[i] == ""
  {
    if ps == [] then []
    else if ps[|ps| - 1] != "" then ps
    else StripTrailingEmpty(ps[..|ps| - 1])
  }

  /**
   * `String.split` with a one-character separator and no limit: a string
   * without the separator is returned whole; otherwise the pieces are
   * returned with trailing empty ones discarded (so "__" splits into []).
   */
  function Split(s: string, c: char): (r: seq<string>)
    ensures forall i :: 0 <= i < |r| ==> c !in r[i]
    ensures c !in s ==> r == [s]
    ensures c in s ==> r <= Pieces(s, c) && (r == [] || r[|r| - 1] != "")
    ensures c in s ==> forall i :: |r| <= i < |Pieces(s, c)| ==> Pieces(s, c)[i] == ""
  {
    if c !in s then [s] else StripTrailingEmpty(Pieces(s, c))
  }

  /**
   * The first element of the split of a string that contains `c` exists
   * exactly when the string has some other character, and it is then the
   * text before the first `c`.
   */
  lemma SplitHead(s: string, c: char)
    requires c in s
    ensures |Split(s, c)| > 0 <==> !OnlyChar(s, c)
    ensures |Split(s, c)| > 0 ==> Split(s, c)[0] == s[..IndexOf(s, c)]
  {
    var ps := Pieces(s, c);
    PiecesAllEmpty(s, c);
    FirstPiece(s, c);
    var r := Split(s, c);
    if OnlyChar(s, c) {
      assert |r| == 0;
    } else {
      var i :| 0 <= i < |ps| && ps[i] != "";
      assert |r| > i;
    }
  }

  /** Gluing one more piece onto the end. */
  lemma {:induction false} JoinSnoc(ps: seq<string>, x: string, c: char)
    requires |ps| >= 1
    ensures Join(ps + [x], c) == Join(ps, c) + [c] + x
  {
    if |ps| > 1 {
      assert (ps + [x])[1..] == ps[1..] + [x];
      JoinSnoc(ps[1..], x, c);
    } else {
      assert (ps + [x])[1..] == [x];
    }
  }

  /** Dropping trailing empty pieces drops only trailing separators from the glued string. */
  lemma {:induction false} JoinDropEmpties(ps: seq<string>, n: nat, c: char)
    requires 1 <= n <= |ps|
    requires forall i :: n <= i < |ps| ==> ps[i] == ""
    ensures Join(ps[..n], c) <= Join(ps, c)
    ensures OnlyChar(Join(ps, c)[|Join(ps[..n], c)|..], c)
  {
    if n < |ps| {
      var m := |ps| - 1;
      var init := ps[..m];
      assert init[..n] == ps[..n];
      JoinDropEmpties(init, n, c);
      assert ps == init + [ps[m]] && ps[m] == "";
      JoinSnoc(init, "", c);
      var whole := Join(ps, c);
      var k := |Join(ps[..n], c)|;
      assert whole == Join(init, c) + [c];
      forall j | 0 <= j < |whole[k..]| ensures whole[k..][j] == c {
        if k + j < |Join(init, c)| {
          assert whole[k..][j] == Join(init, c)[k..][j];
        }
      }
    } else {
      assert ps[..n] == ps;
    }
  }

  /** `k` empty pieces, as `split` finds them after a string's last non-separator. */
  function Empties(k: nat): (r: seq<string>)
    ensures |r| == k && forall i :: 0 <= i < k ==> r[i] == ""
  {
    if k == 0 then [] else Empties(k - 1) + [""]
  }

  /** `k` copies of the separator. */
  function Repeat(c: char, k: nat): (r: string)
    ensures |r| == k && OnlyChar(r, c)
  {
    if k == 0 then [] else Repeat(c, k - 1) + [c]
  }

  /** Gluing empty pieces onto the end adds one separator per piece. */
  lemma {:induction false} JoinEmpties(ps: seq<string>, k: nat, c: char)
    requires |ps| >= 1
    ensures Join(ps + Empties(k), c) == Join(ps, c) + Repeat(c, k)
  {
    if k > 0 {
      JoinEmpties(ps, k - 1, c);
      assert ps + Empties(k) == (ps + Empties(k - 1)) + [""];
      JoinSnoc(ps + Empties(k - 1), "", c);
    } else {
      assert ps + Empties(0) == ps;
    }
  }

  /** Trailing empty pieces are exactly what `StripTrailingEmpty` removes. */
  lemma {:induction false} StripEmpties(ps: seq<string>, k: nat)
    requires ps != [] && ps[|ps| - 1] != ""
    ensures StripTrailingEmpty(ps + Empties(k)) == ps
  {
    if k > 0 {
      var qs := ps + Empties(k);
      assert qs[..|qs| - 1] == ps + Empties(k - 1);
      StripEmpties(ps, k - 1);
    } else {
      assert ps + Empties(0) == ps;
    }
  }

  /**
   * The inverse of `SplitJoin`: at least two separator-free pieces, the last
   * one non-empty, glued with `c` and followed by any number of `c`s, split
   * back into exactly those pieces.
   */
  lemma SplitOfJoin(ps: seq<string>, k: nat, c: char)
    requires |ps| >= 2 && ps[|ps| - 1] != ""
    requires forall i :: 0 <= i < |ps| ==> c !in ps[i]
    ensures Split(Join(ps, c) + Repeat(c, k), c) == ps
  {
    var qs := ps + Empties(k);
    assert forall i :: 0 <= i < |qs| ==> c !in qs[i] by {
      forall i | 0 <= i < |qs| ensures c !in qs[i] {
        if i >= |ps| { assert qs[i] == ""; }
      }
    }
    JoinEmpties(ps, k, c);
    PiecesJoin(qs, c);
    StripEmpties(ps, k);
    var s := Join(ps, c) + Repeat(c, k);
    assert Join(ps, c) == ps[0] + [c] + Join(ps[1..], c);
    assert s[|ps[0]|] == c;
  }

  /**
   * `split` loses nothing but trailing separators: when it yields at least one
   * piece, the pieces glued with `c` are a prefix of `s` and the rest of `s` is
   * made of `c` only.
   */
  lemma SplitJoin(s: string, c: char)
    requires |Split(s, c)| >= 1
    ensures Join(Split(s, c), c) <= s
    ensures OnlyChar(s[|Join(Split(s, c), c)|..], c)
  {
    if c in s {
      var ps := Pieces(s, c);
      var r := Split(s, c);
      assert ps[..|r|] == r;
      JoinPieces(s, c);
      JoinDropEmpties(ps, |r|, c);
    }
  }

  /** The strings of `ps` that are not empty, in order. */
  function NonEmpty(ps: seq<string>): (r: seq<string>)
    ensures forall i :: 0 <= i < |r| ==> r[i] != "" && r[i] in ps
    ensures forall x :: x in ps && x != "" ==> x in r
  {
    if ps == [] then []
    else if ps[|ps| - 1] == "" then NonEmpty(ps[..|ps| - 1])
    else NonEmpty(ps[..|ps| - 1]) + [ps[|ps| - 1]]
  }

  /**
   * The elements `new StringTokenizer(s, delim)` enumerates: the maximal runs
   * of characters other than `delim`.
   */
  function Tokens(s: string, delim: char): (r: seq<string>)
    ensures forall i :: 0 <= i < |r| ==> r[i] != "" && delim !in r[i]
  {
    NonEmpty(Pieces(s, delim))
  }

  /** Tokenizing a list of non-empty, delimiter-free tokens joined by the delimiter gives the list back. */
  lemma TokensOfJoin(ts: seq<string>, delim: char)
    requires |ts| >= 1
    requires forall i :: 0 <= i < |ts| ==> ts[i] != "" && delim !in ts[i]
    ensures Tokens(Join(ts, delim), delim) == ts
  {
    PiecesJoin(ts, delim);
    NonEmptyOfNonEmpty(ts);
  }

  lemma {:induction false} NonEmptyOfNonEmpty(ts: seq<string>)
    requires forall i :: 0 <= i < |ts| ==> ts[i] != ""
    ensures NonEmpty(ts) == ts
  {
    if ts != [] {
      NonEmptyOfNonEmpty(ts[..|ts| - 1]);
    }
  }

  /** `String.compareTo(b) <= 0`: lexicographic order on characters, a proper prefix first. */
  predicate LessEq(a: string, b: string) {
    if a == [] then true
    else if b == [] then false
    else if a[0] != b[0] then a[0] < b[0]
    else LessEq(a[1..], b[1..])
  }

  lemma {:induction false} LessEqReflexive(a: string)
    ensures LessEq(a, a)
  {
    if a != [] {
      LessEqReflexive(a[1..]);
    }
  }

  lemma {:induction false} LessEqTotal(a: string, b: string)
    ensures LessEq(a, b) || LessEq(b, a)
  {
    if a != [] && b != [] && a[0] == b[0] {
      LessEqTotal(a[1..], b[1..]);
    }
  }

  lemma {:induction false} LessEqAntisymmetric(a: string, b: string)
    requires LessEq(a, b) && LessEq(b, a)
    ensures a == b
  {
    if a != [] && b != [] {
      LessEqAntisymmetric(a[1..], b[1..]);
      assert a == [a[0]] + a[1..] && b == [b[0]] + b[1..];
    }
  }

  lemma {:induction false} LessEqTransitive(a: string, b: string, c: string)
    requires LessEq(a, b) && LessEq(b, c)
    ensures LessEq(a, c)
  {
    if a != [] && b != [] && c != [] && a[0] == b[0] && b[0] == c[0] {
      LessEqTransitive(a[1..], b[1..], c[1..]);
    }
  }
}
