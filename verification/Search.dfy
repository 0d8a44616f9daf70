/** Where strstr() finds a text. */
module Search {
  import opened Bytes

  lemma FindIs(s: string, t: string, from: nat, at: nat)
    requires from <= at && IsAt(s, t, at) && forall j :: from <= j < at ==> !IsAt(s, t, j)
    ensures Find(s, t, from) == Some(at)
  {
  }

  /** The first place of a character is behind a text without it. */
  lemma FindChar(text: string, c: char, rest: string)
    requires c !in text && rest != "" && rest[0] == c
    ensures Find(text + rest, [c], 0) == Some(|text|)
  {
    var s := text + rest;
    forall j | 0 <= j < |text| ensures !IsAt(s, [c], j) {
      IsAtPointwise(s, [c], j);
      assert s[j + 0] == text[j];
    }
    assert s[|text|..|text| + 1] == [c];
    FindIs(s, [c], 0, |text|);
  }

  lemma SameAt(s: string, t: string, from: nat, at: int)
    requires from <= |s|
    ensures IsAt(s[from..], t, at) <==> 0 <= at && IsAt(s, t, from + at)
  {
    IsAtPointwise(s, t, from + at);
    IsAtPointwise(s[from..], t, at);
  }

  lemma FindFrom(s: string, t: string, from: nat, at: nat)
    requires from <= |s| && Find(s[from..], t, 0) == Some(at)
    ensures Find(s, t, from) == Some(from + at)
  {
    SameAt(s, t, from, at);
    forall j | from <= j < from + at ensures !IsAt(s, t, j) {
      SameAt(s, t, from, j - from);
    }
    FindIs(s, t, from, from + at);
  }

  /** A key whose `k`-th byte is neither in the text before it nor earlier in the key is found behind that text. */
  lemma FindKey(before: string, key: string, k: nat, rest: string)
    requires k < |key| && key[k] !in before && key[k] !in key[..k]
    ensures Find(before + key + rest, key, 0) == Some(|before|)
  {
    var s := before + key + rest;
    forall j | 0 <= j < |before| ensures !IsAt(s, key, j) {
      NotEarlier(before, key, k, rest, j);
    }
    assert s[|before|..|before| + |key|] == key;
    FindIs(s, key, 0, |before|);
  }

  lemma NotEarlier(before: string, key: string, k: nat, rest: string, j: nat)
    requires k < |key| && key[k] !in before && key[k] !in key[..k] && j < |before|
    ensures !IsAt(before + key + rest, key, j)
  {
    var s := before + key + rest;
    IsAtPointwise(s, key, j);
    if j + k < |before| {
      assert s[j + k] == before[j + k];
    } else {
      assert s[j + k] == key[..k][j + k - |before|];
    }
  }
}
