/** The final component of a path, as Rust's Path::file_name finds it, over characters or bytes. */
module PathNames {
  import opened Common

  /** Split at every `slash`; there is always at least one piece. */
  function Pieces<T(==)>(path: seq<T>, slash: T): (r: seq<seq<T>>)
    ensures |r| > 0
  {
    if path == [] then [[]]
    else if path[0] == slash then [[]] + Pieces(path[1..], slash)
    else
      var rest := Pieces(path[1..], slash);
      [[path[0]] + rest[0]] + rest[1..]
  }

  /** The last piece that is neither empty nor a single dot; no name if it is "..". */
  function LastNormal<T(==)>(pieces: seq<seq<T>>, dot: T): Option<seq<T>> {
    if pieces == [] then None else
    var n := |pieces| - 1;
    if pieces[n] == [] || pieces[n] == [dot] then LastNormal(pieces[..n], dot)
    else if pieces[n] == [dot, dot] then None
    else Some(pieces[n])
  }

  function FileName<T(==)>(path: seq<T>, slash: T, dot: T): Option<seq<T>> {
    LastNormal(Pieces(path, slash), dot)
  }

  lemma {:induction false} PiecesOfPlain<T>(name: seq<T>, slash: T)
    requires slash !in name
    ensures Pieces(name, slash) == [name]
  {
    if name != [] {
      PiecesOfPlain(name[1..], slash);
      assert name == [name[0]] + name[1..];
    }
  }

  lemma {:induction false} PiecesAppend<T>(dir: seq<T>, slash: T, name: seq<T>)
    ensures Pieces(dir + [slash] + name, slash) == Pieces(dir, slash) + Pieces(name, slash)
  {
    var whole := dir + [slash] + name;
    if dir == [] {
      assert whole[1..] == name;
    } else {
      var tail := dir[1..] + [slash] + name;
      assert whole[0] == dir[0] && whole[1..] == tail;
      PiecesAppend(dir[1..], slash, name);
      PiecesHead(whole, slash);
      PiecesHead(dir, slash);
    }
  }

  lemma PiecesHead<T>(path: seq<T>, slash: T)
    requires path != []
    ensures var rest := Pieces(path[1..], slash);
            Pieces(path, slash) == if path[0] == slash then [[]] + rest else [[path[0]] + rest[0]] + rest[1..]
  {
  }

  // ----- exactly which paths have a given file name -----

  /** Nothing, or a path up to and including a slash. */
  predicate IsFront<T(==)>(dir: seq<T>, slash: T) {
    dir == [] || dir[|dir| - 1] == slash
  }

  predicate IsBlank<T(==)>(piece: seq<T>, dot: T) {
    piece == [] || piece == [dot]
  }

  /** Nothing, or a slash and then only empty and single-dot pieces. */
  predicate IsBack<T(==)>(tail: seq<T>, slash: T, dot: T) {
    tail == [] || (tail[0] == slash && forall p :: p in Pieces(tail, slash) ==> IsBlank(p, dot))
  }

  predicate IsPlainName<T(==)>(name: seq<T>, slash: T, dot: T) {
    slash !in name && !IsBlank(name, dot) && name != [dot, dot]
  }

  ghost predicate EndsIn<T(!new)>(path: seq<T>, name: seq<T>, slash: T, dot: T) {
    exists dir, tail :: path == dir + name + tail && IsFront(dir, slash) && IsBack(tail, slash, dot)
  }

  lemma {:induction false} BlanksSkipped<T>(front: seq<seq<T>>, back: seq<seq<T>>, dot: T)
    requires forall p :: p in back ==> IsBlank(p, dot)
    ensures LastNormal(front + back, dot) == LastNormal(front, dot)
    decreases |back|
  {
    if back == [] {
      assert front + back == front;
    } else {
      var n := |back| - 1;
      assert (front + back)[..|front + back| - 1] == front + back[..n];
      assert (front + back)[|front + back| - 1] == back[n] && back[n] in back;
      BlanksSkipped(front, back[..n], dot);
    }
  }

  lemma {:induction false} LastSlash<T>(path: seq<T>, slash: T) returns (a: seq<T>, b: seq<T>)
    requires slash in path
    ensures path == a + [slash] + b && slash !in b
  {
    var n := |path| - 1;
    if path[n] == slash {
      a, b := path[..n], [];
    } else {
      assert slash in path[..n];
      a, b := LastSlash(path[..n], slash);
      b := b + [path[n]];
    }
  }

  lemma LastPiece<T>(front: seq<seq<T>>, name: seq<T>, dot: T)
    requires !IsBlank(name, dot) && name != [dot, dot]
    ensures LastNormal(front + [name], dot) == Some(name)
  {
    assert (front + [name])[|front|] == name;
  }

  lemma EndingIsFileName<T>(dir: seq<T>, name: seq<T>, tail: seq<T>, slash: T, dot: T)
    requires IsPlainName(name, slash, dot) && IsFront(dir, slash) && IsBack(tail, slash, dot)
    ensures FileName(dir + name + tail, slash, dot) == Some(name)
  {
    hide Pieces, LastNormal;
    var path := dir + name + tail;
    var back: seq<seq<T>> := [];
    if tail != [] {
      var rest := tail[1..];
      assert path == (dir + name) + [slash] + rest;
      PiecesAppend(dir + name, slash, rest);
      assert tail == [] + [slash] + rest;
      PiecesAppend([], slash, rest);
      back := Pieces(rest, slash);
    } else {
      assert path == dir + name;
    }
    assert Pieces(path, slash) == Pieces(dir + name, slash) + back;
    BlanksSkipped(Pieces(dir + name, slash), back, dot);
    PiecesOfPlain(name, slash);
    if dir == [] {
      assert dir + name == name && [name] == [] + [name];
      LastPiece([], name, dot);
    } else {
      var up := dir[..|dir| - 1];
      assert dir + name == up + [slash] + name;
      PiecesAppend(up, slash, name);
      LastPiece(Pieces(up, slash), name, dot);
    }
  }

  lemma {:induction false} FileNameEnds<T(!new)>(path: seq<T>, name: seq<T>, slash: T, dot: T)
    requires IsPlainName(name, slash, dot) && FileName(path, slash, dot) == Some(name)
    ensures EndsIn(path, name, slash, dot)
    decreases |path|
  {
    hide Pieces, LastNormal;
    if slash !in path {
      PiecesOfPlain(path, slash);
      OnePiece(path, dot);
      assert path == [] + name + [] && IsFront<T>([], slash) && IsBack<T>([], slash, dot);
    } else {
      var a, b := LastSlash(path, slash);
      PiecesAppend(a, slash, b);
      PiecesOfPlain(b, slash);
      if IsBlank(b, dot) {
        BlanksSkipped(Pieces(a, slash), [b], dot);
        FileNameEnds(a, name, slash, dot);
        var dir, tail :| a == dir + name + tail && IsFront(dir, slash) && IsBack(tail, slash, dot);
        var longer := tail + [slash] + b;
        PiecesAppend(tail, slash, b);
        assert tail == [] ==> Pieces(tail, slash) == [[]] by { PiecesOfPlain<T>([], slash); }
        assert IsBack(longer, slash, dot);
        assert path == dir + name + longer;
      } else {
        LastOf(Pieces(a, slash), b, dot);
        assert path == (a + [slash]) + name + [];
        assert IsFront(a + [slash], slash) && IsBack<T>([], slash, dot);
      }
    }
  }

  lemma OnePiece<T>(piece: seq<T>, dot: T)
    ensures LastNormal([piece], dot).Some? ==> LastNormal([piece], dot) == Some(piece)
  {
    LastOf([], piece, dot);
    assert [] + [piece] == [piece];
    BlanksSkipped([], [], dot);
    if IsBlank(piece, dot) {
      BlanksSkipped([], [piece], dot);
    }
  }

  lemma LastOf<T>(front: seq<seq<T>>, piece: seq<T>, dot: T)
    requires !IsBlank(piece, dot) || front == []
    ensures LastNormal(front + [piece], dot).Some? ==> LastNormal(front + [piece], dot) == Some(piece)
  {
    assert (front + [piece])[|front|] == piece;
    assert front == [] ==> (front + [piece])[..|front|] == [];
  }

  /** A path has a plain file name exactly when it ends in it, give or take slashes and single dots. */
  lemma FileNameExact<T(!new)>(path: seq<T>, name: seq<T>, slash: T, dot: T)
    requires IsPlainName(name, slash, dot)
    ensures FileName(path, slash, dot) == Some(name) <==> EndsIn(path, name, slash, dot)
  {
    if FileName(path, slash, dot) == Some(name) {
      FileNameEnds(path, name, slash, dot);
    }
    if EndsIn(path, name, slash, dot) {
      var dir, tail :| path == dir + name + tail && IsFront(dir, slash) && IsBack(tail, slash, dot);
      EndingIsFileName(dir, name, tail, slash, dot);
    }
  }
}
