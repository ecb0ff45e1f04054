/**
 * The list of candidate encodings used when loading a file (gtef-settings.c).
 *
 * The GSettings key is an input vector of charset names, `None` standing for
 * a NULL vector. `gtk_source_encoding_get_from_charset` is the partial map
 * `fromCharset`; a charset it does not know is not in its domain. Encodings
 * are compared by identity, which here is equality of the type parameter `E`.
 */
module Settings {
  import opened Wrappers

  /** strv_is_empty: NULL, no string at all, or exactly one empty string. */
  function StrvIsEmpty(strv: Option<seq<string>>): (r: bool)
    ensures r <==> strv.None? || (|strv.value| <= 1 && forall i | 0 <= i < |strv.value| :: strv.value[i] == "")
  {
    strv.None? || |strv.value| == 0 || (|strv.value| == 1 && strv.value[0] == "")
  }

  /** No element occurs twice. */
  predicate NoDuplicates<E(==)>(s: seq<E>)
  {
    forall i, j | 0 <= i < j < |s| :: s[i] != s[j]
  }

  /**
   * The encodings named by a setting: each charset in turn is looked up, and
   * an encoding found is kept unless an earlier charset already gave it.
   * This is the specification of EncodingStrvToList.
   */
  function SettingEncodings<E(==)>(strv: seq<string>, fromCharset: map<string, E>): (r: seq<E>)
    ensures NoDuplicates(r)
    ensures forall e | e in r :: exists c | c in strv :: c in fromCharset && fromCharset[c] == e
    ensures forall c | c in strv && c in fromCharset :: fromCharset[c] in r
  {
    if strv == [] then []
    else
      var front := strv[..|strv| - 1];
      var charset := strv[|strv| - 1];
      var prev := SettingEncodings(front, fromCharset);
      assert strv == front + [charset];
      if charset in fromCharset && fromCharset[charset] !in prev then prev + [fromCharset[charset]] else prev
  }

  /**
   * The list for a prefix of the setting is a prefix of the list for the whole
   * setting: an encoding whose first charset comes earlier is listed earlier.
   */
  lemma {:induction false} SettingEncodingsPrefix<E>(strv: seq<string>, fromCharset: map<string, E>, n: nat)
    requires n <= |strv|
    ensures SettingEncodings(strv[..n], fromCharset) <= SettingEncodings(strv, fromCharset)
  {
    if n < |strv| {
      var front := strv[..|strv| - 1];
      assert strv[..n] == front[..n];
      SettingEncodingsPrefix(front, fromCharset, n);
    } else {
      assert strv[..n] == strv;
    }
  }

  /** The charsets that name no known encoding are ignored. */
  lemma {:induction false} SettingEncodingsSkipsUnknown<E>(front: seq<string>, back: seq<string>, fromCharset: map<string, E>)
    requires forall c | c in back :: c !in fromCharset
    ensures SettingEncodings(front + back, fromCharset) == SettingEncodings(front, fromCharset)
  {
    if back != [] {
      var s := front + back;
      assert s[..|s| - 1] == front + back[..|back| - 1];
      assert s[|s| - 1] == back[|back| - 1];
      SettingEncodingsSkipsUnknown(front, back[..|back| - 1], fromCharset);
    } else {
      assert front + back == front;
    }
  }

  /** g_slist_reverse. */
  function Reverse<E>(s: seq<E>): (r: seq<E>)
    ensures |r| == |s|
    ensures forall i | 0 <= i < |s| :: r[i] == s[|s| - 1 - i]
  {
    if s == [] then [] else [s[|s| - 1]] + Reverse(s[..|s| - 1])
  }

  lemma ReverseReverse<E>(s: seq<E>)
    ensures Reverse(Reverse(s)) == s
  {
    var r := Reverse(Reverse(s));
    assert |r| == |s|;
    forall i | 0 <= i < |s| ensures r[i] == s[i] {
      assert r[i] == Reverse(s)[|s| - 1 - i];
    }
  }

  lemma ReverseMembers<E>(s: seq<E>)
    ensures forall x :: x in Reverse(s) <==> x in s
  {
    var r := Reverse(s);
    forall x | x in s ensures x in r {
      var i :| 0 <= i < |s| && s[i] == x;
      assert r[|s| - 1 - i] == x;
    }
  }

  lemma ReverseSnoc<E>(s: seq<E>, x: E)
    ensures Reverse(s + [x]) == [x] + Reverse(s)
  {
    assert (s + [x])[..|s|] == s;
  }

  /**
   * encoding_strv_to_list: builds the list by prepending each new encoding,
   * then reverses it.
   */
  method EncodingStrvToList<E(==)>(strv: seq<string>, fromCharset: map<string, E>) returns (list: seq<E>)
    ensures list == SettingEncodings(strv, fromCharset)
  {
    var reversed: seq<E> := [];
    var i := 0;
    while i < |strv|
      invariant 0 <= i <= |strv|
      invariant reversed == Reverse(SettingEncodings(strv[..i], fromCharset))
    {
      var charset := strv[i];
      assert strv[..i + 1][..i] == strv[..i];
      ReverseMembers(SettingEncodings(strv[..i], fromCharset));
      if charset in fromCharset && fromCharset[charset] !in reversed {
        ReverseSnoc(SettingEncodings(strv[..i], fromCharset), fromCharset[charset]);
        reversed := [fromCharset[charset]] + reversed;
      }
      i := i + 1;
    }
    assert strv[..i] == strv;
    ReverseReverse(SettingEncodings(strv, fromCharset));
    list := Reverse(reversed);
  }

  /**
   * _gtef_settings_get_candidate_encodings. An empty setting gives the
   * default candidates of GtkSourceEncoding; otherwise the setting's list,
   * with UTF-8 and then the locale encoding prepended when missing.
   */
  method GetCandidateEncodings<E(==)>(setting: Option<seq<string>>, fromCharset: map<string, E>,
                                      utf8: E, current: E, defaults: seq<E>)
    returns (candidates: seq<E>, defaultCandidates: bool)
    ensures defaultCandidates == StrvIsEmpty(setting)
    ensures defaultCandidates ==> candidates == defaults
    ensures !defaultCandidates ==>
      var list := SettingEncodings(setting.value, fromCharset);
      && current in candidates
      && utf8 in candidates
      && (current !in list ==> candidates[0] == current)
      && NoDuplicates(candidates)
      && |list| <= |candidates| <= |list| + 2
      && candidates[|candidates| - |list|..] == list
      && (forall e | e in candidates[..|candidates| - |list|] :: e !in list && (e == utf8 || e == current))
  {
    if StrvIsEmpty(setting) {
      defaultCandidates := true;
      candidates := defaults;
    } else {
      defaultCandidates := false;
      var list := EncodingStrvToList(setting.value, fromCharset);
      candidates := list;
      if utf8 != current && utf8 !in candidates {
        candidates := [utf8] + candidates;
      }
      if current !in candidates {
        candidates := [current] + candidates;
      }
      assert candidates[|candidates| - |list|..] == list;
    }
  }
}
