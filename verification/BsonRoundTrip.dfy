/** Builder, validator and iterator together. */
module BsonRoundTrip {
  import opened Wrappers
  import opened Bytes
  import opened BsonTree
  import opened BsonValidate
  import opened BsonIterate
  import opened BsonBuild

  /** What any well-nested run builds is accepted whole and reads back as the tree it described. */
  method BuildValidateRead(ops: seq<Op>, holder: nat, checkEnd: bool) returns (ok: bool, tree: Doc)
    requires AllowedRun([Level([], false, Nil)], ops)
    requires |RunMeaning([Level([], false, Nil)], ops)| == 1
    requires |DocBytes(RunMeaning([Level([], false, Nil)], ops)[0].doc)| < INT32_LIMIT
    ensures ok && tree == RunMeaning([Level([], false, Nil)], ops)[0].doc
  {
    hide DocBytes;
    ghost var d := RunMeaning([Level([], false, Nil)], ops)[0].doc;
    var bytes, answers := Build(ops, holder);
    assert IsDocPrefix(bytes, d);
    var end;
    ok, end := ValidateBson(bytes);
    assert bytes[0..|bytes|] == bytes;
    tree := ReadTree(bytes, 0, checkEnd, d);
  }

  /** Every buffer the validator accepts walks to the bottom, by either form of size(). */
  method ValidateThenRead(bytes: seq<byte>, checkEnd: bool) returns (tree: Option<Doc>)
    requires |bytes| < INT32_LIMIT
    ensures tree.Some? ==> IsDocPrefix(bytes, tree.value)
    ensures tree.None? ==> forall d :: !IsDocPrefix(bytes, d)
  {
    var ok, end := ValidateBson(bytes);
    if !ok {
      return None;
    }
    ghost var d :| IsDocPrefix(bytes, d);
    var t := ReadTree(bytes, 0, checkEnd, d);
    tree := Some(t);
  }
}
