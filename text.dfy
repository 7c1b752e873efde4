/** The JavaScript string operations the panel relies on:
    truthiness, `String.prototype.includes` and `Array.prototype.join`. */
module Text {
  import opened Wrappers

  /** A string field is truthy when it is present and not the empty string. */
  predicate Truthy(s: Option<string>)
  {
    s.Some? && s.value != ""
  }

  /** `sub` occurs in `s` starting at index `i`. */
  ghost predicate OccursAt(s: string, sub: string, i: int)
  {
    0 <= i && i + |sub| <= |s| && s[i..i + |sub|] == sub
  }

  /** `s.includes(sub)`: `sub` occurs as a contiguous substring of `s`. */
  function Includes(s: string, sub: string): (r: bool)
    ensures r <==> exists i :: OccursAt(s, sub, i)
  {
    if |sub| > |s| then false
    else if s[..|sub|] == sub then
      assert OccursAt(s, sub, 0);
      true
    else
      var r' := Includes(s[1..], sub);
      assert r' ==> exists i :: OccursAt(s, sub, i) by {
        if r' {
          var j :| OccursAt(s[1..], sub, j);
          assert s[j + 1..j + 1 + |sub|] == s[1..][j..j + |sub|];
          assert OccursAt(s, sub, j + 1);
        }
      }
      assert (exists i :: OccursAt(s, sub, i)) ==> r' by {
        if exists i :: OccursAt(s, sub, i) {
          var i :| OccursAt(s, sub, i);
          assert i != 0;
          assert s[1..][i - 1..i - 1 + |sub|] == s[i..i + |sub|];
          assert OccursAt(s[1..], sub, i - 1);
        }
      }
      r'
  }

  /** Anything a string contains, a longer string around it contains too. */
  lemma IncludesWithin(a: string, b: string, c: string, sub: string)
    requires Includes(b, sub)
    ensures Includes(a + b + c, sub)
  {
    var i :| OccursAt(b, sub, i);
    assert (a + b + c)[|a| + i..|a| + i + |sub|] == b[i..i + |sub|];
    assert OccursAt(a + b + c, sub, |a| + i);
  }

  /** Every string contains itself. */
  lemma IncludesSelf(s: string)
    ensures Includes(s, s)
  {
  }

  /** `parts.join(sep)`: the parts in order, separated by `sep`. */
  function Join(parts: seq<string>, sep: string): string
  {
    if |parts| == 0 then ""
    else if |parts| == 1 then parts[0]
    else parts[0] + (sep + Join(parts[1..], sep))
  }

  /** A joined string contains every part it was joined from. */
  lemma {:induction false} JoinIncludesParts(parts: seq<string>, sep: string)
    ensures forall i :: 0 <= i < |parts| ==> Includes(Join(parts, sep), parts[i])
  {
    if |parts| == 1 {
      IncludesSelf(parts[0]);
    } else if |parts| > 1 {
      var rest := Join(parts[1..], sep);
      var r := Join(parts, sep);
      assert r == parts[0] + (sep + rest);
      JoinIncludesParts(parts[1..], sep);
      forall i | 0 <= i < |parts| ensures Includes(r, parts[i]) {
        if i == 0 {
          IncludesSelf(parts[0]);
          IncludesWithin("", parts[0], sep + rest, parts[0]);
          assert "" + parts[0] + (sep + rest) == r;
        } else {
          assert parts[1..][i - 1] == parts[i];
          IncludesWithin(parts[0] + sep, rest, "", parts[i]);
          assert parts[0] + sep + rest + "" == r;
        }
      }
    }
  }
}
