/** The byte stream fed to the digest of the source tree, which stays uninterpreted. */
module SourceDigest {
  // It is every path and every file's content with line endings normalised, each followed by a NUL.

  import opened RawBytes

  const NUL: Byte := 0
  const CR: Byte := 13
  const LF: Byte := 10

  datatype File = File(path: Bytes, content: Bytes)

  /** bytes.replace of CR LF by LF, from left to right. */
  function Normalise(content: Bytes): Bytes {
    if |content| < 2 then content
    else if content[0] == CR && content[1] == LF then [LF] + Normalise(content[2..])
    else [content[0]] + Normalise(content[1..])
  }

  /** What one file contributes. */
  function Frame(f: File): Bytes { f.path + [NUL] + (Normalise(f.content) + [NUL]) }

  function Stream(files: seq<File>): Bytes {
    if files == [] then [] else Frame(files[0]) + Stream(files[1..])
  }

  function Concat(directories: seq<seq<File>>): seq<File> {
    if directories == [] then [] else directories[0] + Concat(directories[1..])
  }

  /** A digest object, by what it has been fed. */
  class Digest {
    ghost var fed: Bytes

    constructor ()
      ensures fed == []
    {
      fed := [];
    }

    method Update(bytes: Bytes)
      modifies this
      ensures fed == old(fed) + bytes
    {
      fed := fed + bytes;
    }
  }

  /** Feeds the files of every directory, in the order in which they are listed. */
  method FeedSources(directories: seq<seq<File>>) returns (digest: Digest)
    ensures digest.fed == Stream(Concat(directories))
  {
    digest := new Digest();
    for d := 0 to |directories|
      invariant digest.fed == Stream(Concat(directories[..d]))
    {
      var files := directories[d];
      ghost var before := digest.fed;
      for i := 0 to |files|
        invariant digest.fed == before + Stream(files[..i])
      {
        digest.Update(files[i].path + [NUL]);
        digest.Update(Normalise(files[i].content) + [NUL]);
        NextFile(before, files, i);
      }
      NextDirectory(directories, d);
    }
    assert directories[..|directories|] == directories;
  }

  lemma NextFile(before: Bytes, files: seq<File>, i: nat)
    requires i < |files|
    ensures before + Stream(files[..i]) + (files[i].path + [NUL]) + (Normalise(files[i].content) + [NUL])
         == before + Stream(files[..i + 1])
  {
    StreamSnoc(files[..i], files[i]);
    assert files[..i + 1] == files[..i] + [files[i]];
  }

  lemma NextDirectory(directories: seq<seq<File>>, d: nat)
    requires d < |directories|
    ensures Stream(Concat(directories[..d])) + Stream(directories[d][..|directories[d]|])
            == Stream(Concat(directories[..d + 1]))
  {
    assert directories[d][..|directories[d]|] == directories[d];
    ConcatSnoc(directories[..d], directories[d]);
    assert directories[..d + 1] == directories[..d] + [directories[d]];
    StreamConcat(Concat(directories[..d]), directories[d]);
  }

  lemma {:induction false} StreamConcat(a: seq<File>, b: seq<File>)
    ensures Stream(a + b) == Stream(a) + Stream(b)
  {
    if a == [] {
      assert a + b == b;
    } else {
      assert (a + b)[1..] == a[1..] + b;
      StreamConcat(a[1..], b);
    }
  }

  lemma StreamSnoc(files: seq<File>, f: File)
    ensures Stream(files + [f]) == Stream(files) + Frame(f)
  {
    StreamConcat(files, [f]);
    assert [f][1..] == [];
    assert Stream([f]) == Frame(f);
  }

  lemma {:induction false} ConcatSnoc(directories: seq<seq<File>>, files: seq<File>)
    ensures Concat(directories + [files]) == Concat(directories) + files
  {
    if directories == [] {
      assert [files][1..] == [];
    } else {
      assert (directories + [files])[1..] == directories[1..] + [files];
      ConcatSnoc(directories[1..], files);
    }
  }

  // ---- The stream determines the files -------------------------------------------------------

  predicate NulFree(b: Bytes) { NUL !in b }

  /** Neither the path nor the content holds a NUL. */
  predicate Framable(f: File) { NulFree(f.path) && NulFree(f.content) }

  lemma {:induction false} NormaliseNulFree(content: Bytes)
    requires NulFree(content)
    ensures NulFree(Normalise(content))
  {
    if |content| >= 2 {
      assert content[0] in content && content[1] in content;
      if content[0] == CR && content[1] == LF {
        NormaliseNulFree(content[2..]);
      } else {
        NormaliseNulFree(content[1..]);
      }
    }
  }

  /** The part before the first NUL is determined. */
  lemma {:induction false} FirstPart(a: Bytes, s: Bytes, b: Bytes, t: Bytes)
    requires NulFree(a) && NulFree(b) && a + [NUL] + s == b + [NUL] + t
    ensures a == b && s == t
  {
    var u, v := a + [NUL] + s, b + [NUL] + t;
    assert u[|a|] == NUL && v[|b|] == NUL;
    assert forall i :: 0 <= i < |a| ==> u[i] == a[i] && a[i] in a;
    assert forall i :: 0 <= i < |b| ==> v[i] == b[i] && b[i] in b;
    assert |a| == |b|;
    assert u[..|a|] == a && v[..|b|] == b;
    assert u[|a| + 1..] == s && v[|b| + 1..] == t;
  }

  /** A file as the digest sees it. */
  function Seen(f: File): File { File(f.path, Normalise(f.content)) }

  function AllSeen(files: seq<File>): (r: seq<File>)
    ensures |r| == |files| && forall i :: 0 <= i < |files| ==> r[i] == Seen(files[i])
  {
    seq(|files|, i requires 0 <= i < |files| => Seen(files[i]))
  }

  lemma {:induction false} StreamDetermines(a: seq<File>, b: seq<File>)
    requires forall i :: 0 <= i < |a| ==> Framable(a[i])
    requires forall i :: 0 <= i < |b| ==> Framable(b[i])
    requires Stream(a) == Stream(b)
    ensures AllSeen(a) == AllSeen(b)
  {
    if a != [] && b != [] {
      var s, t := Stream(a[1..]), Stream(b[1..]);
      var p, q := Normalise(a[0].content), Normalise(b[0].content);
      assert Stream(a) == a[0].path + [NUL] + (p + [NUL] + s);
      assert Stream(b) == b[0].path + [NUL] + (q + [NUL] + t);
      NormaliseNulFree(a[0].content);
      NormaliseNulFree(b[0].content);
      FirstPart(a[0].path, p + [NUL] + s, b[0].path, q + [NUL] + t);
      FirstPart(p, s, q, t);
      StreamDetermines(a[1..], b[1..]);
      forall i | 0 <= i < |a| ensures i < |b| && AllSeen(a)[i] == AllSeen(b)[i] {
        if i > 0 {
          assert AllSeen(a[1..])[i - 1] == AllSeen(b[1..])[i - 1];
        }
      }
      assert |AllSeen(a[1..])| == |AllSeen(b[1..])|;
    }
  }

  lemma {:induction false} StreamOfSeen(a: seq<File>, b: seq<File>)
    requires AllSeen(a) == AllSeen(b)
    ensures Stream(a) == Stream(b)
  {
    assert |a| == |AllSeen(a)| == |AllSeen(b)| == |b|;
    if a != [] {
      assert AllSeen(a)[0] == AllSeen(b)[0];
      forall i | 0 <= i < |a| - 1 ensures AllSeen(a[1..])[i] == AllSeen(b[1..])[i] {
        assert AllSeen(a)[i + 1] == AllSeen(b)[i + 1];
      }
      StreamOfSeen(a[1..], b[1..]);
    }
  }

  /** Free of NUL, two trees feed the same stream exactly when they list the same paths with the same
      content up to line endings, in the same order. */
  lemma StreamIff(a: seq<File>, b: seq<File>)
    requires forall i :: 0 <= i < |a| ==> Framable(a[i])
    requires forall i :: 0 <= i < |b| ==> Framable(b[i])
    ensures Stream(a) == Stream(b) <==> AllSeen(a) == AllSeen(b)
  {
    if Stream(a) == Stream(b) {
      StreamDetermines(a, b);
    }
    if AllSeen(a) == AllSeen(b) {
      StreamOfSeen(a, b);
    }
  }

  // ---- Trees with NUL --------------------------------------------------------------------------

  /** The parts that the NULs of some bytes leave. */
  function Pieces(b: Bytes): (r: seq<Bytes>)
    ensures r != []
  {
    if b == [] then [[]]
    else
      var rest := Pieces(b[1..]);
      if b[0] == NUL then [[]] + rest else [[b[0]] + rest[0]] + rest[1..]
  }

  /** Every part followed by a NUL. */
  function Terminated(pieces: seq<Bytes>): Bytes {
    if pieces == [] then [] else pieces[0] + [NUL] + Terminated(pieces[1..])
  }

  predicate AllNulFree(pieces: seq<Bytes>) { forall i :: 0 <= i < |pieces| ==> NulFree(pieces[i]) }

  lemma {:induction false} PiecesTerminated(b: Bytes)
    ensures Terminated(Pieces(b)) == b + [NUL] && AllNulFree(Pieces(b))
  {
    if b == [] {
      assert Pieces(b)[1..] == [];
    } else {
      PiecesTerminated(b[1..]);
      var rest := Pieces(b[1..]);
      assert b == [b[0]] + b[1..];
      if b[0] == NUL {
        assert Pieces(b)[1..] == rest;
      } else {
        assert Pieces(b)[1..] == rest[1..];
        assert Terminated(Pieces(b)) == [b[0]] + (rest[0] + [NUL] + Terminated(rest[1..]));
      }
    }
  }

  lemma {:induction false} TerminatedConcat(p: seq<Bytes>, q: seq<Bytes>)
    ensures Terminated(p + q) == Terminated(p) + Terminated(q)
  {
    if p == [] {
      assert p + q == q;
    } else {
      assert (p + q)[1..] == p[1..] + q;
      TerminatedConcat(p[1..], q);
    }
  }

  lemma {:induction false} TerminatedInjective(p: seq<Bytes>, q: seq<Bytes>)
    requires AllNulFree(p) && AllNulFree(q) && Terminated(p) == Terminated(q)
    ensures p == q
  {
    if p != [] && q != [] {
      FirstPart(p[0], Terminated(p[1..]), q[0], Terminated(q[1..]));
      TerminatedInjective(p[1..], q[1..]);
      assert p == [p[0]] + p[1..] && q == [q[0]] + q[1..];
    }
  }

  /** The parts of every path and every normalised content, in order. */
  function AllPieces(files: seq<File>): seq<Bytes> {
    if files == [] then []
    else Pieces(files[0].path) + Pieces(Normalise(files[0].content)) + AllPieces(files[1..])
  }

  lemma {:induction false} StreamIsTerminated(files: seq<File>)
    ensures Stream(files) == Terminated(AllPieces(files)) && AllNulFree(AllPieces(files))
  {
    if files != [] {
      var path, content := files[0].path, Normalise(files[0].content);
      StreamIsTerminated(files[1..]);
      PiecesTerminated(path);
      PiecesTerminated(content);
      TerminatedConcat(Pieces(path), Pieces(content));
      TerminatedConcat(Pieces(path) + Pieces(content), AllPieces(files[1..]));
    }
  }

  /** Whatever the files hold, two trees feed the same stream exactly when cutting all paths and
      normalised contents at their NULs leaves the same parts in the same order. */
  lemma StreamPiecesIff(a: seq<File>, b: seq<File>)
    ensures Stream(a) == Stream(b) <==> AllPieces(a) == AllPieces(b)
  {
    StreamIsTerminated(a);
    StreamIsTerminated(b);
    if Stream(a) == Stream(b) {
      TerminatedInjective(AllPieces(a), AllPieces(b));
    }
  }

  /** The paths a.py and b.py. */
  const PATH_A: Bytes := [97, 46, 112, 121]
  const PATH_B: Bytes := [98, 46, 112, 121]

  /** A content that reads like the end of a file and the path of the next one. */
  const DISGUISED: Bytes := [NUL, 98, 46, 112, 121, NUL]

  /** A NUL in the content can hide where a file ends. */
  lemma NulHidesBoundary()
    ensures var a, b := [File(PATH_A, DISGUISED)], [File(PATH_A, []), File(PATH_B, [])];
            a != b && AllSeen(a) != AllSeen(b) && Stream(a) == Stream(b)
  {
    var a, b := [File(PATH_A, DISGUISED)], [File(PATH_A, []), File(PATH_B, [])];
    NormaliseFree(DISGUISED);
    assert a[1..] == [] && b[1..] == [File(PATH_B, [])] && b[1..][1..] == [];
    assert Stream(b[1..]) == PATH_B + [NUL, NUL];
    assert Stream(a) == PATH_A + [NUL] + DISGUISED + [NUL];
    assert Stream(b) == PATH_A + [NUL, NUL] + (PATH_B + [NUL, NUL]);
  }

  // ---- Line endings ----------------------------------------------------------------------------

  /** The content as a checkout with CR LF line endings has it. */
  function CrLfCheckout(content: Bytes): Bytes {
    if content == [] then []
    else (if content[0] == LF then [CR, LF] else [content[0]]) + CrLfCheckout(content[1..])
  }

  lemma {:induction false} NormaliseFree(content: Bytes)
    requires CR !in content
    ensures Normalise(content) == content
  {
    if |content| >= 2 {
      assert content[0] in content;
      NormaliseFree(content[1..]);
      assert content == [content[0]] + content[1..];
    }
  }

  /** No CR is followed by an LF. */
  predicate NoCrLf(content: Bytes) { forall i :: 0 <= i < |content| - 1 ==> content[i] != CR || content[i + 1] != LF }

  /** Every CR LF becomes an LF, from left to right, and nothing else changes. */
  lemma {:induction false} NormaliseIs(before: Bytes, after: Bytes)
    requires NoCrLf(before)
    ensures Normalise(before) == before
    ensures Normalise(before + [13, 10] + after) == before + [10] + Normalise(after)
  {
    if before == [] {
      assert before + [13, 10] + after == [CR, LF] + after && ([CR, LF] + after)[2..] == after;
    } else {
      var rest := before[1..];
      assert before == [before[0]] + rest;
      NormaliseIs(rest, after);
      KeepsFirst(before[0], rest);
      KeepsFirst(before[0], rest + [13, 10] + after);
      assert before + [13, 10] + after == [before[0]] + (rest + [13, 10] + after);
    }
  }

  lemma KeepsFirst(b: Byte, rest: Bytes)
    requires rest == [] || b != CR || rest[0] != LF
    ensures Normalise([b] + rest) == [b] + Normalise(rest)
  {
    assert ([b] + rest)[1..] == rest;
  }

  /** Content without CR normalises alike in a CR LF and in a LF checkout. */
  lemma {:induction false} LineEndingsDoNotMatter(content: Bytes)
    requires CR !in content
    ensures Normalise(CrLfCheckout(content)) == content == Normalise(content)
  {
    NormaliseFree(content);
    if content != [] {
      assert content[0] in content;
      LineEndingsDoNotMatter(content[1..]);
      var tail := CrLfCheckout(content[1..]);
      if content[0] == LF {
        assert ([CR, LF] + tail)[2..] == tail;
      } else if tail != [] {
        assert ([content[0]] + tail)[1..] == tail;
      }
      assert content == [content[0]] + content[1..];
    }
  }

  /** So a tree free of CR feeds the same stream from either checkout. */
  lemma CheckoutsAgree(files: seq<File>, crlf: seq<File>)
    requires |crlf| == |files|
    requires forall i :: 0 <= i < |files| ==>
               CR !in files[i].content && crlf[i] == File(files[i].path, CrLfCheckout(files[i].content))
    ensures Stream(crlf) == Stream(files)
  {
    forall i | 0 <= i < |files| ensures Seen(crlf[i]) == Seen(files[i]) {
      LineEndingsDoNotMatter(files[i].content);
    }
    StreamOfSeen(crlf, files);
  }
}
