/** The project name the scripts derive from package.json's `name`: a
    default for a missing or empty name, and two sanitisers for the class
    `[^a-zA-Z0-9-_]` -- scripts/build.mjs and scripts/release.mjs replace
    each such character by `-`, scripts/backup.mjs deletes it. */
module Naming {
  import opened Text

  /** `pkg.name || "project"`: an absent or empty name falls back to
      "project". */
  function NameOrDefault(name: Option<string>): (r: string)
    ensures r != []
    ensures name.Some? && name.value != [] ==> r == name.value
    ensures name.None? || name.value == [] ==> r == "project"
  {
    if name.Some? && name.value != "" then name.value else "project"
  }

  /** Every character is one the class `[a-zA-Z0-9-_]` accepts. */
  predicate IsSafeName(s: string) {
    forall k :: 0 <= k < |s| ==> IsNameChar(s[k])
  }

  /** `s.replace(/[^a-zA-Z0-9-_]/g, "-")`. */
  function DashUnsafe(s: string): (r: string)
    ensures |r| == |s|
    ensures forall k :: 0 <= k < |s| ==> r[k] == (if IsNameChar(s[k]) then s[k] else '-')
  {
    if s == [] then "" else [if IsNameChar(s[0]) then s[0] else '-'] + DashUnsafe(s[1..])
  }

  /** `s.replace(/[^a-zA-Z0-9-_]/g, "")`. */
  function DropUnsafe(s: string): (r: string)
    ensures |r| <= |s|
    ensures IsSafeName(r)
  {
    if s == [] then ""
    else if IsNameChar(s[0]) then [s[0]] + DropUnsafe(s[1..])
    else DropUnsafe(s[1..])
  }

  /** A single character is kept exactly when it is allowed in a name. */
  lemma DropUnsafeOne(c: char)
    ensures DropUnsafe([c]) == if IsNameChar(c) then [c] else ""
  {
    assert [c][1..] == [];
  }

  /** Deleting keeps the order of what it keeps: it distributes over
      concatenation. */
  lemma {:induction false} DropUnsafeAppend(a: string, b: string)
    ensures DropUnsafe(a + b) == DropUnsafe(a) + DropUnsafe(b)
  {
    if a != [] {
      assert (a + b)[0] == a[0] && (a + b)[1..] == a[1..] + b;
      DropUnsafeAppend(a[1..], b);
    } else {
      assert a + b == b;
    }
  }

  /** Replacing by `-` gives a safe name, and leaves a safe name alone. */
  lemma DashUnsafeIsSafe(s: string)
    ensures IsSafeName(DashUnsafe(s))
    ensures IsSafeName(s) <==> DashUnsafe(s) == s
  {
    var r := DashUnsafe(s);
    if r == s {
      assert forall k :: 0 <= k < |s| ==> IsNameChar(s[k]) by {
        forall k | 0 <= k < |s| ensures IsNameChar(s[k]) {
          assert r[k] == s[k];
        }
      }
    }
  }

  /** Deleting leaves a safe name alone, and shortens any other name. */
  lemma {:induction false} DropUnsafeKeepsSafe(s: string)
    ensures IsSafeName(s) ==> DropUnsafe(s) == s
    ensures !IsSafeName(s) ==> |DropUnsafe(s)| < |s|
  {
    if s != [] {
      DropUnsafeKeepsSafe(s[1..]);
      if IsSafeName(s) {
        assert IsSafeName(s[1..]) by {
          forall k | 0 <= k < |s[1..]| ensures IsNameChar(s[1..][k]) {
            assert s[1..][k] == s[k + 1];
          }
        }
      } else if IsNameChar(s[0]) {
        assert !IsSafeName(s[1..]) by {
          var k :| 0 <= k < |s| && !IsNameChar(s[k]);
          assert k > 0 && s[1..][k - 1] == s[k];
        }
      }
    }
  }

  /** The backup script's name and the build and release scripts' name for
      the same package agree exactly when the name needs no sanitising. */
  lemma BackupNameDiffers(s: string)
    ensures DropUnsafe(s) == DashUnsafe(s) <==> IsSafeName(s)
  {
    DashUnsafeIsSafe(s);
    DropUnsafeKeepsSafe(s);
  }

  /** `PROJECT_NAME` of scripts/build.mjs, which is also `name` of
      scripts/release.mjs. */
  function ProjectName(name: Option<string>): (r: string)
    ensures r != [] && IsSafeName(r)
    ensures name.Some? && name.value != [] && IsSafeName(name.value) ==> r == name.value
  {
    DashUnsafeIsSafe(NameOrDefault(name));
    DashUnsafe(NameOrDefault(name))
  }

  /** `PROJECT_BASE`: the name as a root-relative path. */
  function ProjectBase(name: Option<string>): (r: string)
    ensures |r| >= 2 && r[0] == '/' && '/' !in r[1..]
  {
    var n := ProjectName(name);
    assert forall k :: 0 <= k < |n| ==> n[k] != '/';
    "/" + n
  }
}
