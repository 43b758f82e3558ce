/** The page's `classNames` helper: joins the truthy entries of a list of
    optional class names with single spaces. It is written as a left fold
    (`Array.prototype.reduce` with the index), and whether a separator is
    added depends only on the entry's index, not on whether anything was
    emitted before it. */
module ClassNames {

  /** One argument: a class-name string, `undefined`, or `false` (the value of
      `flag && name` when the flag is off). */
  datatype ClassArg = Name(s: string) | Undefined | False

  /** JavaScript truthiness of an argument: only a non-empty string is truthy. */
  predicate Truthy(a: ClassArg) {
    a.Name? && a.s != ""
  }

  /** What the reducer appends for the entry at `index`. */
  function Piece(a: ClassArg, index: nat): string {
    if Truthy(a) then (if index != 0 then " " else "") + a.s else ""
  }

  /** `reduce` from position `index` on, with accumulator `acc`. */
  function Reduce(args: seq<ClassArg>, index: nat, acc: string): string
    requires index <= |args|
    decreases |args| - index
  {
    if index == |args| then acc
    else Reduce(args, index + 1, acc + Piece(args[index], index))
  }

  /** `classNames(...args)`: the fold started at index 0 with `""`. The
      source's `string | undefined` cast is a type annotation only; the fold
      always yields a string. */
  function Join(args: seq<ClassArg>): string {
    Reduce(args, 0, "")
  }

  /** Reference definition: the pieces of all entries, concatenated in order. */
  function Pieces(args: seq<ClassArg>): string {
    if |args| == 0 then ""
    else Pieces(args[..|args| - 1]) + Piece(args[|args| - 1], |args| - 1)
  }

  lemma {:induction false} ReduceIsPieces(args: seq<ClassArg>, index: nat)
    requires index <= |args|
    ensures Reduce(args, index, Pieces(args[..index])) == Pieces(args)
    decreases |args| - index
  {
    if index == |args| {
      assert args[..index] == args;
    } else {
      assert args[..index + 1][..index] == args[..index];
      ReduceIsPieces(args, index + 1);
    }
  }

  /** The fold computes exactly the in-order concatenation of the pieces. */
  lemma JoinIsPieces(args: seq<ClassArg>)
    ensures Join(args) == Pieces(args)
  {
    ReduceIsPieces(args, 0);
  }

  /** Appending one argument appends exactly its piece: nothing for a falsy
      entry, the name for a truthy first entry, and a space plus the name for
      a truthy later entry. */
  lemma JoinSnoc(args: seq<ClassArg>, a: ClassArg)
    ensures Join(args + [a]) == Join(args) + (if Truthy(a) && |args| > 0 then " " + a.s
                                              else if Truthy(a) then a.s else "")
  {
    JoinIsPieces(args);
    JoinIsPieces(args + [a]);
    assert (args + [a])[..|args|] == args;
  }

  lemma {:induction false} PiecesEmptyIff(args: seq<ClassArg>)
    ensures Pieces(args) == "" <==> forall i :: 0 <= i < |args| ==> !Truthy(args[i])
  {
    if |args| > 0 {
      var init := args[..|args| - 1];
      PiecesEmptyIff(init);
      assert forall i :: 0 <= i < |init| ==> init[i] == args[i];
    }
  }

  /** The result is empty exactly when every entry is falsy (`undefined`,
      `false` or `""`); in particular an empty argument list gives `""`. */
  lemma JoinEmptyIff(args: seq<ClassArg>)
    ensures Join(args) == "" <==> forall i :: 0 <= i < |args| ==> !Truthy(args[i])
  {
    JoinIsPieces(args);
    PiecesEmptyIff(args);
  }

  lemma {:induction false} PiecesFalsyPrefix(args: seq<ClassArg>, k: nat)
    requires k <= |args|
    requires forall j :: 0 <= j < k ==> !Truthy(args[j])
    ensures Pieces(args[..k]) == ""
  {
    if k > 0 {
      assert args[..k][..k - 1] == args[..k - 1];
      PiecesFalsyPrefix(args, k - 1);
    }
  }

  lemma {:induction false} PiecesPrefix(args: seq<ClassArg>, k: nat)
    requires k <= |args|
    ensures Pieces(args[..k]) <= Pieces(args)
    decreases |args| - k
  {
    if k < |args| {
      PiecesPrefix(args, k + 1);
      assert args[..k + 1][..k] == args[..k];
    } else {
      assert args[..k] == args;
    }
  }

  /** If `k` is the first truthy entry, the result starts with that entry's
      piece: with no separator when `k` is 0 and with one space otherwise, so
      the result begins with a space whenever entry 0 is falsy and some later
      entry is truthy. */
  lemma JoinFirstTruthy(args: seq<ClassArg>, k: nat)
    requires k < |args| && Truthy(args[k])
    requires forall j :: 0 <= j < k ==> !Truthy(args[j])
    ensures k == 0 ==> args[k].s <= Join(args)
    ensures k > 0 ==> " " + args[k].s <= Join(args)
    ensures k > 0 ==> Join(args)[0] == ' '
  {
    JoinIsPieces(args);
    PiecesFalsyPrefix(args, k);
    PiecesPrefix(args, k + 1);
    assert args[..k + 1][..k] == args[..k];
    assert Pieces(args[..k + 1]) == Piece(args[k], k);
  }

  /** The source's own example: a leading `undefined` still makes the next
      name get a separator; an empty name adds nothing at all. */
  lemma LeadingUndefined(x: string)
    ensures Join([Undefined, Name(x)]) == if x == "" then "" else " " + x
  {
    assert [Undefined] + [Name(x)] == [Undefined, Name(x)];
    JoinSnoc([Undefined], Name(x));
  }
}
