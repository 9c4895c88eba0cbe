/** The keyword manager's list updates and derived values: toggling one
  * keyword, setting one keyword's preference, the colour of a category
  * and the number of active keywords. Each update builds a new list. */
module KeywordManager {
  import opened Schema
  import Lists

  /** `keywords.map((k, i) => i === index ? {...k, isActive: !k.isActive} : k)`. */
  function Toggle(keywords: seq<Keyword>, index: int): (r: seq<Keyword>)
    ensures |r| == |keywords|
    ensures forall i :: 0 <= i < |r| && i != index ==> r[i] == keywords[i]
    ensures 0 <= index < |r| ==> r[index] == keywords[index].(isActive := !keywords[index].isActive)
  {
    seq(|keywords|, i requires 0 <= i < |keywords| =>
      if i == index then keywords[i].(isActive := !keywords[i].isActive) else keywords[i])
  }

  /** Toggling the same keyword twice restores the list, and an index
    * outside the list changes nothing. */
  lemma ToggleInvolution(keywords: seq<Keyword>, index: int)
    ensures Toggle(Toggle(keywords, index), index) == keywords
    ensures !(0 <= index < |keywords|) ==> Toggle(keywords, index) == keywords
  {
  }

  /** `keywords.map((k, i) => i === index ? {...k, userPreference} : k)`. */
  function SetPreference(keywords: seq<Keyword>, index: int, preference: real): (r: seq<Keyword>)
    ensures |r| == |keywords|
    ensures forall i :: 0 <= i < |r| && i != index ==> r[i] == keywords[i]
    ensures 0 <= index < |r| ==> r[index] == keywords[index].(userPreference := preference)
  {
    seq(|keywords|, i requires 0 <= i < |keywords| =>
      if i == index then keywords[i].(userPreference := preference) else keywords[i])
  }

  /** Setting a preference is idempotent, the last of two settings of the
    * same keyword wins, and the active count is unaffected. */
  lemma SetPreferenceLastWins(keywords: seq<Keyword>, index: int, first: real, second: real)
    ensures SetPreference(SetPreference(keywords, index, first), index, second) == SetPreference(keywords, index, second)
    ensures ActiveCount(SetPreference(keywords, index, first)) == ActiveCount(keywords)
  {
    SameActivity(keywords, SetPreference(keywords, index, first));
  }

  /** getCategoryColor. */
  function CategoryColor(category: string): string
  {
    if category == "industry" then "bg-blue-100 text-blue-800"
    else if category == "values" then "bg-green-100 text-green-800"
    else if category == "products" then "bg-purple-100 text-purple-800"
    else if category == "competitors" then "bg-red-100 text-red-800"
    else "bg-gray-100 text-gray-800"
  }

  /** The four categories get four different colours, none of them gray,
    * and every other string gets gray. */
  lemma CategoryColorsDistinct(a: Category, b: Category, other: string)
    requires ParseCategory(other).None?
    ensures a != b ==> CategoryColor(CategoryName(a)) != CategoryColor(CategoryName(b))
    ensures CategoryColor(CategoryName(a)) != "bg-gray-100 text-gray-800"
    ensures CategoryColor(other) == "bg-gray-100 text-gray-800"
  {
  }

  function IsActive(): Keyword -> bool
  {
    (k: Keyword) => k.isActive
  }

  /** `keywords.filter(k => k.isActive).length`. */
  function ActiveCount(keywords: seq<Keyword>): nat
  {
    |Lists.Filter(keywords, IsActive())|
  }

  /** The positions of the active keywords. */
  ghost function ActiveIndices(keywords: seq<Keyword>): set<int>
  {
    set i | 0 <= i < |keywords| && keywords[i].isActive
  }

  /** The active count is the number of active positions, so at most the
    * length of the list. */
  lemma {:induction false} ActiveCountIndices(keywords: seq<Keyword>)
    ensures ActiveCount(keywords) == |ActiveIndices(keywords)|
    ensures ActiveCount(keywords) <= |keywords|
  {
    if |keywords| > 0 {
      var n := |keywords| - 1;
      var prefix := keywords[..n];
      ActiveCountIndices(prefix);
      assert keywords == prefix + [keywords[n]];
      Lists.FilterSnoc(prefix, keywords[n], IsActive());
      assert forall i :: 0 <= i < n ==> prefix[i] == keywords[i];
      if keywords[n].isActive {
        assert ActiveIndices(keywords) == ActiveIndices(prefix) + {n};
      } else {
        assert ActiveIndices(keywords) == ActiveIndices(prefix);
      }
    }
  }

  /** Two lists whose keywords agree on being active have equal counts. */
  lemma {:induction false} SameActivity(a: seq<Keyword>, b: seq<Keyword>)
    requires |a| == |b| && forall i :: 0 <= i < |a| ==> a[i].isActive == b[i].isActive
    ensures ActiveCount(a) == ActiveCount(b)
  {
    if |a| > 0 {
      SameActivity(a[1..], b[1..]);
    }
  }

  /** Toggling a keyword moves the active count by one: down when it was
    * active, up when it was not. */
  lemma ToggleCount(keywords: seq<Keyword>, index: int)
    requires 0 <= index < |keywords|
    ensures ActiveCount(Toggle(keywords, index)) == if keywords[index].isActive then ActiveCount(keywords) - 1 else ActiveCount(keywords) + 1
  {
    var toggled := Toggle(keywords, index);
    ActiveCountIndices(keywords);
    ActiveCountIndices(toggled);
    if keywords[index].isActive {
      assert ActiveIndices(keywords) == ActiveIndices(toggled) + {index};
    } else {
      assert ActiveIndices(toggled) == ActiveIndices(keywords) + {index};
    }
  }
}
