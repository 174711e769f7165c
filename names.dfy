/** Registry keys: a building name is trimmed and lower-cased before every lookup
    or key comparison (Main.java:9). Java's trim() removes the leading and trailing
    characters whose code is at most U+0020; toLowerCase() is modelled on ASCII letters. */
module Names {

  /** The registry key of a building: its trimmed, lower-cased name. */
  type Key = string

  /** The characters Java's trim() strips. */
  predicate IsBlank(c: char) {
    c <= ' '
  }

  predicate IsUpper(c: char) {
    'A' <= c <= 'Z'
  }

  predicate AllBlank(s: string) {
    forall i :: 0 <= i < |s| ==> IsBlank(s[i])
  }

  function LowerChar(c: char): (r: char)
    ensures !IsUpper(r)
    ensures IsBlank(r) <==> IsBlank(c)
    ensures !IsUpper(c) ==> r == c
  {
    if IsUpper(c) then (c as int - 'A' as int + 'a' as int) as char else c
  }

  function ToLower(s: string): (r: string)
    ensures |r| == |s|
    ensures forall i :: 0 <= i < |s| ==> r[i] == LowerChar(s[i])
  {
    seq(|s|, i requires 0 <= i < |s| => LowerChar(s[i]))
  }

  /** trim()'s forward scan: the first index at or after st that is not blank, or |s|. */
  function SkipLeading(s: string, st: nat): (k: nat)
    requires st <= |s|
    ensures st <= k <= |s|
    ensures forall j :: st <= j < k ==> IsBlank(s[j])
    ensures k == |s| || !IsBlank(s[k])
    decreases |s| - st
  {
    if st < |s| && IsBlank(s[st]) then SkipLeading(s, st + 1) else st
  }

  /** trim()'s backward scan: len shrinks while the character before it is blank,
      but never below st. */
  function SkipTrailing(s: string, st: nat, len: nat): (m: nat)
    requires st <= len <= |s|
    ensures st <= m <= len
    ensures forall j :: m <= j < len ==> IsBlank(s[j])
    ensures m == st || !IsBlank(s[m - 1])
    decreases len
  {
    if st < len && IsBlank(s[len - 1]) then SkipTrailing(s, st, len - 1) else len
  }

  /** Java's trim(): s without its leading and trailing blanks. The result neither
      starts nor ends with a blank; TrimParts and TrimSplit pin it down completely. */
  function Trim(s: string): (r: string)
    ensures |r| <= |s|
    ensures r == [] || (!IsBlank(r[0]) && !IsBlank(r[|r| - 1]))
  {
    var st := SkipLeading(s, 0);
    s[st..SkipTrailing(s, st, |s|)]
  }

  /** The registry key of a name (Main.java:9). A key has no surrounding blanks and
      is no longer than the name it came from; NormalizeLowerCase adds that it has no
      upper-case letter. */
  function Normalize(name: string): (key: string)
    ensures key == [] || (!IsBlank(key[0]) && !IsBlank(key[|key| - 1]))
    ensures |key| <= |name|
  {
    ToLower(Trim(name))
  }

  /** A key has no upper-case letter. */
  lemma NormalizeLowerCase(name: string)
    ensures forall i :: 0 <= i < |Normalize(name)| ==> !IsUpper(Normalize(name)[i])
  {
  }

  /** Trim's result is pinned down by any split of s into blanks, a core that neither
      starts nor ends with a blank, and blanks. */
  lemma TrimSplit(s: string, pre: string, core: string, post: string)
    requires s == pre + core + post && AllBlank(pre) && AllBlank(post)
    requires core == [] || (!IsBlank(core[0]) && !IsBlank(core[|core| - 1]))
    ensures Trim(s) == core
  {
    var st := SkipLeading(s, 0);
    var m := SkipTrailing(s, st, |s|);
    if core == [] {
      assert forall j :: 0 <= j < |s| ==> IsBlank(s[j]) by {
        forall j | 0 <= j < |s| ensures IsBlank(s[j]) {
          if j < |pre| { assert s[j] == pre[j]; } else { assert s[j] == post[j - |pre|]; }
        }
      }
      assert st == |s|;
    } else {
      assert s[|pre|] == core[0];
      assert forall j :: 0 <= j < |pre| ==> s[j] == pre[j];
      assert st == |pre|;
      var e := |pre| + |core|;
      assert s[e - 1] == core[|core| - 1];
      assert forall j :: e <= j < |s| ==> s[j] == post[j - e];
      assert m == e;
      assert s[st..m] == core;
    }
  }

  /** Normalising a key again gives the same key. */
  lemma NormalizeIdempotent(name: string)
    ensures Normalize(Normalize(name)) == Normalize(name)
  {
    var key := Normalize(name);
    NormalizeLowerCase(name);
    TrimSplit(key, [], key, []);
    assert ToLower(key) == key;
  }

  /** Surrounding blanks never change the key: " library " and "library" share one. */
  lemma NormalizeIgnoresPadding(pre: string, name: string, post: string)
    requires AllBlank(pre) && AllBlank(post)
    ensures Normalize(pre + name + post) == Normalize(name)
  {
    TrimIgnoresPadding(pre, name, post);
  }

  lemma TrimIgnoresPadding(pre: string, name: string, post: string)
    requires AllBlank(pre) && AllBlank(post)
    ensures Trim(pre + name + post) == Trim(name)
  {
    var head, core, tail := TrimParts(name);
    AllBlankConcat(pre, head);
    AllBlankConcat(tail, post);
    Regroup(pre, head, core, tail, post);
    TrimSplit(pre + name + post, pre + head, core, tail + post);
  }

  lemma Regroup(pre: string, head: string, core: string, tail: string, post: string)
    ensures pre + (head + core + tail) + post == (pre + head) + core + (tail + post)
  {
  }

  /** The blanks trim() drops from each end and the core it keeps. */
  lemma TrimParts(name: string) returns (head: string, core: string, tail: string)
    ensures name == head + core + tail && AllBlank(head) && AllBlank(tail)
    ensures core == [] || (!IsBlank(core[0]) && !IsBlank(core[|core| - 1]))
    ensures Trim(name) == core
  {
    var st := SkipLeading(name, 0);
    var m := SkipTrailing(name, st, |name|);
    head, core, tail := name[..st], name[st..m], name[m..];
    assert AllBlank(head) by {
      forall j | 0 <= j < |head| ensures IsBlank(head[j]) {
        assert head[j] == name[j];
      }
    }
    assert AllBlank(tail) by {
      forall j | 0 <= j < |tail| ensures IsBlank(tail[j]) {
        assert tail[j] == name[m + j];
      }
    }
    assert name == head + core + tail;
  }

  lemma AllBlankConcat(a: string, b: string)
    requires AllBlank(a) && AllBlank(b)
    ensures AllBlank(a + b)
  {
    forall j | 0 <= j < |a + b| ensures IsBlank((a + b)[j]) {
      if j >= |a| {
        assert (a + b)[j] == b[j - |a|];
      }
    }
  }

  /** Names that differ only in the case of their letters share one key. */
  lemma NormalizeIgnoresCase(a: string, b: string)
    requires ToLower(a) == ToLower(b)
    ensures Normalize(a) == Normalize(b)
  {
    TrimCommutesWithLower(a);
    TrimCommutesWithLower(b);
  }

  lemma ToLowerSlice(s: string, i: nat, j: nat)
    requires i <= j <= |s|
    ensures ToLower(s)[i..j] == ToLower(s[i..j])
  {
    var whole, part := ToLower(s)[i..j], ToLower(s[i..j]);
    forall k | 0 <= k < j - i ensures whole[k] == part[k] {
      assert s[i..j][k] == s[i + k];
    }
  }

  lemma {:induction false} SkipLeadingLower(s: string, st: nat)
    requires st <= |s|
    ensures SkipLeading(ToLower(s), st) == SkipLeading(s, st)
    decreases |s| - st
  {
    if st < |s| && IsBlank(s[st]) {
      SkipLeadingLower(s, st + 1);
    }
  }

  lemma {:induction false} SkipTrailingLower(s: string, st: nat, len: nat)
    requires st <= len <= |s|
    ensures SkipTrailing(ToLower(s), st, len) == SkipTrailing(s, st, len)
    decreases len
  {
    if st < len && IsBlank(s[len - 1]) {
      SkipTrailingLower(s, st, len - 1);
    }
  }

  lemma TrimCommutesWithLower(s: string)
    ensures Trim(ToLower(s)) == ToLower(Trim(s))
  {
    var st := SkipLeading(s, 0);
    SkipLeadingLower(s, 0);
    SkipTrailingLower(s, st, |s|);
    ToLowerSlice(s, st, SkipTrailing(s, st, |s|));
  }
}
