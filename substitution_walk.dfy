/**
  The positions the left-to-right scan of `re.sub` passes through, and what
  it emits between them. `Sub(s, 0, ...)` emits, at each position it reaches,
  either the replacement of the match found there or one copied character,
  and moves on to the end of the match or to the next character.
 */
module SubstitutionWalk {
  import opened Wrappers
  import opened Text
  import opened LessonPattern

  /** Where the scan resumes after position `i`. */
  function Next(s: string, find: nat -> Option<Mention>, i: nat): (r: nat)
    requires i < |s| && IsMatcherFor(s, find)
    ensures i < r <= |s|
  {
    match find(i)
    case Some(m) => m.end
    case None => i + 1
  }

  /** What the scan emits at position `i`. */
  function Piece(s: string, find: nat -> Option<Mention>, repl: Mention -> string, i: nat): string
    requires i < |s| && IsMatcherFor(s, find)
  {
    match find(i)
    case Some(m) => repl(m)
    case None => [s[i]]
  }

  /** One step of the scan. */
  lemma SubStep(s: string, find: nat -> Option<Mention>, repl: Mention -> string, i: nat)
    requires i < |s| && IsMatcherFor(s, find)
    ensures Sub(s, i, find, repl) == Piece(s, find, repl, i) + Sub(s, Next(s, find, i), find, repl)
  {
  }

  /** The scan that starts at `i` passes through `j`. */
  ghost predicate Reaches(s: string, find: nat -> Option<Mention>, i: nat, j: nat)
    requires i <= |s| && IsMatcherFor(s, find)
    decreases |s| - i
  {
    i == j || (i < j && i < |s| && Reaches(s, find, Next(s, find, i), j))
  }

  lemma {:induction false} ReachesBounds(s: string, find: nat -> Option<Mention>, i: nat, j: nat)
    requires i <= |s| && IsMatcherFor(s, find) && Reaches(s, find, i, j)
    ensures i <= j <= |s|
    decreases |s| - i
  {
    if i != j {
      ReachesBounds(s, find, Next(s, find, i), j);
    }
  }

  /** What the scan emits from `i` until it reaches `j`. */
  ghost function Out(s: string, find: nat -> Option<Mention>, repl: Mention -> string, i: nat, j: nat): string
    requires i <= |s| && IsMatcherFor(s, find) && Reaches(s, find, i, j)
    decreases |s| - i
  {
    if i == j then [] else Piece(s, find, repl, i) + Out(s, find, repl, Next(s, find, i), j)
  }

  /** The output of the scan from `i` is what it emits until `j`, then the scan from `j`. */
  lemma {:induction false} SubSplit(s: string, find: nat -> Option<Mention>, repl: Mention -> string, i: nat, j: nat)
    requires i <= |s| && IsMatcherFor(s, find) && Reaches(s, find, i, j)
    ensures j <= |s|
    ensures Sub(s, i, find, repl) == Out(s, find, repl, i, j) + Sub(s, j, find, repl)
    decreases |s| - i
  {
    ReachesBounds(s, find, i, j);
    if i != j {
      var n := Next(s, find, i);
      SubStep(s, find, repl, i);
      SubSplit(s, find, repl, n, j);
      AppendAssoc(Piece(s, find, repl, i), Out(s, find, repl, n, j), Sub(s, j, find, repl));
    }
  }

  /** Where the parts of `o + (w + r)` stand. */
  lemma Framed(t: string, o: string, w: string, r: string)
    requires t == o + (w + r)
    ensures |o| + |w| <= |t| && t[..|o|] == o && t[|o|..|o| + |w|] == w && t[|o| + |w|..] == r
  {
  }

  /** What the scan emits up to a reached position, and the piece it emits there, stand at the front of the output. */
  lemma PieceInOutput(s: string, find: nat -> Option<Mention>, repl: Mention -> string, j: nat, t: string, o: nat)
    requires IsMatcherFor(s, find) && Reaches(s, find, 0, j) && j < |s|
    requires t == Sub(s, 0, find, repl) && o == |Out(s, find, repl, 0, j)|
    ensures o + |Piece(s, find, repl, j)| <= |t|
    ensures t[..o] == Out(s, find, repl, 0, j) && t[o..o + |Piece(s, find, repl, j)|] == Piece(s, find, repl, j)
  {
    SubSplit(s, find, repl, 0, j);
    SubStep(s, find, repl, j);
    Framed(t, Out(s, find, repl, 0, j), Piece(s, find, repl, j), Sub(s, Next(s, find, j), find, repl));
  }

  /** From a reached position the scan goes on to the next one. */
  lemma {:induction false} ReachesNext(s: string, find: nat -> Option<Mention>, i: nat, j: nat)
    requires i <= |s| && IsMatcherFor(s, find) && Reaches(s, find, i, j) && j < |s|
    ensures Reaches(s, find, i, Next(s, find, j))
    decreases |s| - i
  {
    var nj := Next(s, find, j);
    if i == j {
      assert Reaches(s, find, nj, nj);
    } else {
      var ni := Next(s, find, i);
      ReachesBounds(s, find, ni, j);
      ReachesNext(s, find, ni, j);
    }
  }

  /** Reaching the next position appends the piece of the current one. */
  lemma {:induction false} OutNext(s: string, find: nat -> Option<Mention>, repl: Mention -> string, i: nat, j: nat)
    requires i <= |s| && IsMatcherFor(s, find) && Reaches(s, find, i, j) && j < |s|
    ensures Reaches(s, find, i, Next(s, find, j))
    ensures Out(s, find, repl, i, Next(s, find, j)) == Out(s, find, repl, i, j) + Piece(s, find, repl, j)
    decreases |s| - i
  {
    ReachesNext(s, find, i, j);
    var nj := Next(s, find, j);
    if i == j {
      assert Out(s, find, repl, nj, nj) == [];
    } else {
      var ni := Next(s, find, i);
      ReachesBounds(s, find, ni, j);
      OutNext(s, find, repl, ni, j);
      AppendAssoc(Piece(s, find, repl, i), Out(s, find, repl, ni, j), Piece(s, find, repl, j));
    }
  }

  /** Every position of the output lies in the piece emitted at some reached position. */
  lemma {:induction false} Locate(s: string, find: nat -> Option<Mention>, repl: Mention -> string, i: nat, k: nat)
    returns (j: nat)
    requires i <= |s| && IsMatcherFor(s, find) && k < |Sub(s, i, find, repl)|
    ensures Reaches(s, find, i, j) && j < |s|
    ensures |Out(s, find, repl, i, j)| <= k < |Out(s, find, repl, i, j)| + |Piece(s, find, repl, j)|
    decreases |s| - i
  {
    SubStep(s, find, repl, i);
    var p := Piece(s, find, repl, i);
    if k < |p| {
      j := i;
    } else {
      var n := Next(s, find, i);
      j := Locate(s, find, repl, n, k - |p|);
      ReachesBounds(s, find, n, j);
    }
  }

  /** A position is reached, or it lies strictly inside a match found at a reached position. */
  lemma {:induction false} ReachedOrInside(s: string, find: nat -> Option<Mention>, q: nat) returns (a: nat)
    requires q <= |s| && IsMatcherFor(s, find)
    ensures Reaches(s, find, 0, q)
         || (Reaches(s, find, 0, a) && a < q && find(a).Some? && q < find(a).value.end)
    decreases q
  {
    if q == 0 {
      a := 0;
    } else {
      var b := ReachedOrInside(s, find, q - 1);
      if Reaches(s, find, 0, q - 1) {
        ReachesNext(s, find, 0, q - 1);
        a := q - 1;
      } else {
        ReachesNext(s, find, 0, b);
        a := b;
      }
    }
  }

  /** The last piece before a reached position other than the start. */
  lemma {:induction false} LastPiece(s: string, find: nat -> Option<Mention>, repl: Mention -> string, i: nat, j: nat)
    returns (a: nat)
    requires i <= |s| && IsMatcherFor(s, find) && Reaches(s, find, i, j) && i < j
    ensures Reaches(s, find, i, a) && a < |s| && Next(s, find, a) == j
    ensures Out(s, find, repl, i, j) == Out(s, find, repl, i, a) + Piece(s, find, repl, a)
    decreases |s| - i
  {
    var n := Next(s, find, i);
    if n == j {
      a := i;
      assert Out(s, find, repl, n, j) == [];
    } else {
      ReachesBounds(s, find, n, j);
      a := LastPiece(s, find, repl, n, j);
      ReachesBounds(s, find, n, a);
      AppendAssoc(Piece(s, find, repl, i), Out(s, find, repl, n, a), Piece(s, find, repl, a));
    }
  }

  /**
    The last piece before a reached position other than the start comes
    from position `a`; when it is a copied character or a kept match, it
    ends with the input's character in front of the position.
   */
  lemma LastPieceChar(s: string, find: nat -> Option<Mention>, repl: Mention -> string, j: nat) returns (a: nat)
    requires IsMatcherFor(s, find) && Reaches(s, find, 0, j) && 0 < j <= |s|
    ensures a < j && (find(a).Some? ==> find(a).value.end == j)
    ensures find(a).None? || repl(find(a).value) == find(a).value.text ==>
              var o := Out(s, find, repl, 0, j); 0 < |o| && o[|o| - 1] == s[j - 1]
  {
    a := LastPiece(s, find, repl, 0, j);
    var p := Piece(s, find, repl, a);
    if find(a).None? || repl(find(a).value) == find(a).value.text {
      assert p != [] && p[|p| - 1] == s[j - 1];
    }
  }

  /** What the scan emits until a reached position stands at the front of the output. */
  lemma OutIsPrefix(s: string, find: nat -> Option<Mention>, repl: Mention -> string, j: nat)
    requires IsMatcherFor(s, find) && Reaches(s, find, 0, j)
    ensures var o := Out(s, find, repl, 0, j);
            |o| <= |Sub(s, 0, find, repl)| && Sub(s, 0, find, repl)[..|o|] == o
  {
    SubSplit(s, find, repl, 0, j);
    Framed(Sub(s, 0, find, repl), Out(s, find, repl, 0, j), [], Sub(s, j, find, repl));
  }

  /**
    When the last piece before a reached position is a copied character or
    a kept match, the output holds the input's character in front of the
    position right in front of its image.
   */
  lemma CharBefore(s: string, find: nat -> Option<Mention>, repl: Mention -> string, j: nat) returns (a: nat)
    requires IsMatcherFor(s, find) && Reaches(s, find, 0, j) && 0 < j <= |s|
    ensures a < j && (find(a).Some? ==> find(a).value.end == j)
    ensures find(a).None? || repl(find(a).value) == find(a).value.text ==>
              && 0 < |Out(s, find, repl, 0, j)| <= |Sub(s, 0, find, repl)|
              && Sub(s, 0, find, repl)[|Out(s, find, repl, 0, j)| - 1] == s[j - 1]
  {
    a := LastPieceChar(s, find, repl, j);
    OutIsPrefix(s, find, repl, j);
    var o := Out(s, find, repl, 0, j);
    var t := Sub(s, 0, find, repl);
    assert 0 < |o| ==> t[|o| - 1] == t[..|o|][|o| - 1];
  }

  /**
    Text in which every match found is kept as it is, and ends in the text,
    is copied unchanged.
   */
  lemma {:induction false} SubKeepsUntil(s: string, find: nat -> Option<Mention>, repl: Mention -> string, i: nat, q: nat)
    requires i <= q <= |s| && IsMatcherFor(s, find)
    requires forall k: nat | i <= k < q && find(k).Some? ::
               repl(find(k).value) == find(k).value.text && find(k).value.end <= q
    ensures Sub(s, i, find, repl) == s[i..q] + Sub(s, q, find, repl)
    decreases q - i
  {
    if i < q {
      var n := Next(s, find, i);
      SubStep(s, find, repl, i);
      var rest := Sub(s, q, find, repl);
      assert Piece(s, find, repl, i) == s[i..n];
      SubKeepsUntil(s, find, repl, n, q);
      AppendAssoc(s[i..n], s[n..q], rest);
      assert s[i..n] + s[n..q] == s[i..q];
    }
  }

  /**
    After a reached position `p`, a stretch up to `q` whose matches are all
    kept and end in it stands copied in the output, followed by the output
    of the scan from `q`.
   */
  lemma CopiedStretch(s: string, find: nat -> Option<Mention>, repl: Mention -> string, p: nat, q: nat, t: string, o: nat)
    requires IsMatcherFor(s, find) && Reaches(s, find, 0, p) && p <= q <= |s|
    requires forall k: nat | p <= k < q && find(k).Some? ::
               repl(find(k).value) == find(k).value.text && find(k).value.end <= q
    requires t == Sub(s, 0, find, repl) && o == |Out(s, find, repl, 0, p)|
    ensures o + (q - p) <= |t| && t[o..o + (q - p)] == s[p..q] && t[o + (q - p)..] == Sub(s, q, find, repl)
    ensures Reaches(s, find, 0, q) ==> |Out(s, find, repl, 0, q)| == o + (q - p)
  {
    SubSplit(s, find, repl, 0, p);
    SubKeepsUntil(s, find, repl, p, q);
    Framed(t, Out(s, find, repl, 0, p), s[p..q], Sub(s, q, find, repl));
    if Reaches(s, find, 0, q) {
      SubSplit(s, find, repl, 0, q);
    }
  }

  /** The first position from `i` on where a match is found and rewritten, or the end. */
  function FirstRewrite(s: string, find: nat -> Option<Mention>, repl: Mention -> string, i: nat): (q: nat)
    requires i <= |s|
    ensures i <= q <= |s|
    ensures q < |s| ==> find(q).Some? && repl(find(q).value) != find(q).value.text
    ensures forall k: nat | i <= k < q && find(k).Some? :: repl(find(k).value) == find(k).value.text
    decreases |s| - i
  {
    if i == |s| then i
    else if find(i).Some? && repl(find(i).value) != find(i).value.text then i
    else FirstRewrite(s, find, repl, i + 1)
  }
}
