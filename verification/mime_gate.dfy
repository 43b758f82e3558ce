/** The MIME gate at the top of `convertWebp`: `blob.type.match(/^image\/(png|jpeg)/)`.
    The pattern is anchored at the start only, case-sensitive, and has no end
    anchor, so it is a prefix test. */
module MimeGate {

  /** `s` begins with `prefix`: Dafny's sequence-prefix order, named for
      the places that read as a string test. */
  predicate StartsWith(s: string, prefix: string) {
    prefix <= s
  }

  /** The declarative reading of the pattern: the type begins with
      `image/png` or with `image/jpeg`. */
  predicate IsConvertible(mimeType: string) {
    StartsWith(mimeType, "image/png") || StartsWith(mimeType, "image/jpeg")
  }

  /** Matches the literal `lit` at position `pos` of `t`, one character at a
      time, as a regular-expression engine walks a literal. */
  method MatchLiteral(t: string, pos: nat, lit: string) returns (ok: bool)
    ensures ok <==> pos + |lit| <= |t| && t[pos..pos + |lit|] == lit
  {
    if pos + |lit| > |t| {
      return false;
    }
    var i := 0;
    while i < |lit|
      invariant 0 <= i <= |lit|
      invariant t[pos..pos + i] == lit[..i]
    {
      if t[pos + i] != lit[i] {
        assert t[pos..pos + |lit|][i] != lit[i];
        return false;
      }
      assert t[pos..pos + i + 1] == t[pos..pos + i] + [t[pos + i]];
      assert lit[..i + 1] == lit[..i] + [lit[i]];
      i := i + 1;
    }
    assert lit[..i] == lit;
    return true;
  }

  /** A prefix made of two parts is matched part after part. */
  lemma StartsWithConcat(t: string, a: string, b: string)
    ensures StartsWith(t, a + b) <==>
              |a| + |b| <= |t| && t[..|a|] == a && t[|a|..|a| + |b|] == b
  {
    if |a| + |b| <= |t| {
      assert t[..|a| + |b|] == t[..|a|] + t[|a|..|a| + |b|];
      if t[..|a| + |b|] == a + b {
        assert t[..|a|] == (a + b)[..|a|];
        assert t[|a|..|a| + |b|] == (a + b)[|a|..];
      }
    }
  }

  /** The match as the engine performs it: the anchor fixes position 0, the
      literal `image/` must follow, then the alternatives `png` and `jpeg`
      are tried in order from position 6. */
  method MatchConvertible(mimeType: string) returns (matched: bool)
    ensures matched <==> IsConvertible(mimeType)
  {
    StartsWithConcat(mimeType, "image/", "png");
    StartsWithConcat(mimeType, "image/", "jpeg");
    assert "image/" + "png" == "image/png";
    assert "image/" + "jpeg" == "image/jpeg";
    var head := MatchLiteral(mimeType, 0, "image/");
    if !head {
      return false;
    }
    var png := MatchLiteral(mimeType, 6, "png");
    if png {
      return true;
    }
    matched := MatchLiteral(mimeType, 6, "jpeg");
  }

  /** With no end anchor, anything may follow an accepted type. */
  lemma ConvertibleExtends(mimeType: string, suffix: string)
    requires IsConvertible(mimeType)
    ensures IsConvertible(mimeType + suffix)
  {
  }

  /** Which declared types pass the gate: PNG and JPEG (also with parameters
      or any other suffix) do; GIF, the non-standard `image/jpg`, and
      upper-case spellings do not. */
  lemma GateExamples()
    ensures IsConvertible("image/png") && IsConvertible("image/jpeg")
    ensures IsConvertible("image/png; q=1") && IsConvertible("image/pngx")
    ensures !IsConvertible("image/gif")
    ensures !IsConvertible("image/jpg")
    ensures !IsConvertible("IMAGE/PNG")
    ensures !IsConvertible("")
  {
    assert "image/png; q=1"[..9] == "image/png";
    assert "image/pngx"[..9] == "image/png";
    assert "image/gif"[..9][6] != "image/png"[6];
    assert "image/jpg"[..9][6] != "image/png"[6];
    assert "IMAGE/PNG"[..9] != "image/png";
  }
}
