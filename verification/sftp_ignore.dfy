/** `SftpIgnoreAutoConfig`: the stored list of ignored file names and the
    lookup set rebuilt from it. A missing list (null after loading) is
    `None`. The prompt's text is an input. */
module SftpIgnore {
  import opened Base
  import opened Text

  /** The prompt's default answer. */
  const DefaultIgnore := ".DS_Store"

  datatype IgnoreConfig = IgnoreConfig(list: Option<seq<string>>, names: set<string>)

  /** `IsIgnore(file_name)`: exact, case-sensitive membership. */
  predicate IsIgnore(cfg: IgnoreConfig, fileName: string) {
    fileName in cfg.names
  }

  /** The list is missing or holds nothing, so `CheckPrompt` asks. */
  predicate NeedsPrompt(list: Option<seq<string>>) {
    list.None? || |list.value| <= 0
  }

  /** The characters .NET's `char.IsWhiteSpace` accepts: the Unicode
      separators and the controls U+0009 to U+000D and U+0085. */
  predicate IsWhiteSpace(c: char) {
    || ('\U{9}' <= c <= '\U{D}') || c == ' ' || c == '\U{85}' || c == '\U{A0}'
    || c == '\U{1680}' || ('\U{2000}' <= c <= '\U{200A}') || c == '\U{2028}' || c == '\U{2029}'
    || c == '\U{202F}' || c == '\U{205F}' || c == '\U{3000}'
  }

  /** `string.IsNullOrWhiteSpace`. */
  predicate IsBlank(s: string) {
    forall k :: 0 <= k < |s| ==> IsWhiteSpace(s[k])
  }

  /** What the text prompt with a default returns for what was typed: an
      empty or all-blank answer takes the default, anything else is kept
      as typed. The answer is never blank. */
  function PromptAnswer(typed: string): (a: string)
    ensures typed == "" ==> a == DefaultIgnore
    ensures IsBlank(typed) ==> a == DefaultIgnore
    ensures !IsBlank(typed) ==> a == typed
    ensures !IsBlank(a) && a != ""
  {
    if IsBlank(typed) then
      assert !IsWhiteSpace(DefaultIgnore[0]);
      DefaultIgnore
    else typed
  }

  /** The elements of a list as a set. */
  function Elements(list: seq<string>): (s: set<string>)
    ensures forall x :: x in s <==> exists k :: 0 <= k < |list| && list[k] == x
  {
    if |list| == 0 then {}
    else
      var rest := Elements(list[1..]);
      assert forall k :: 0 < k < |list| ==> list[k] == list[1..][k - 1];
      {list[0]} + rest
  }

  /** `CheckPrompt()`: fill a missing or empty list from the prompt split on
      ',', then clear the set and add every element of the list. The
      boolean tells whether the list was replaced. */
  function CheckPrompt(cfg: IgnoreConfig, typed: string): (r: (IgnoreConfig, bool))
    ensures r.1 <==> NeedsPrompt(cfg.list)
    ensures r.1 ==> r.0.list == Some(Split(PromptAnswer(typed), ','))
    ensures !r.1 ==> r.0.list == cfg.list
    ensures r.0.list.Some? && |r.0.list.value| >= 1
    ensures forall n :: IsIgnore(r.0, n) <==> exists k :: 0 <= k < |r.0.list.value| && r.0.list.value[k] == n
  {
    var list := if NeedsPrompt(cfg.list) then Split(PromptAnswer(typed), ',') else cfg.list.value;
    (IgnoreConfig(Some(list), Elements(list)), NeedsPrompt(cfg.list))
  }

  /** A second `CheckPrompt` asks nothing and changes nothing, whatever is
      typed: the first call left a non-empty list and its exact set. */
  lemma CheckPromptIdempotent(cfg: IgnoreConfig, typed1: string, typed2: string)
    ensures var once := CheckPrompt(cfg, typed1).0;
            CheckPrompt(once, typed2) == (once, false)
  {
    var once := CheckPrompt(cfg, typed1).0;
    var twice := CheckPrompt(once, typed2).0;
    assert twice.names == once.names by {
      forall n ensures n in twice.names <==> n in once.names {
        assert IsIgnore(twice, n) <==> IsIgnore(once, n);
      }
    }
  }
}
