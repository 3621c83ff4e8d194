/**
 * `TasksRepository.search_tasks`: the tasks whose title or description contains
 * the search term, ignoring case. SQL `LIKE` wildcards inside the term are not
 * modelled: the term is matched literally.
 */
module TasksRepository {
  import opened Text
  import opened Records
  import opened TaskSchema

  /** `func.lower(column).contains(func.lower(term))` holds for row `r`. */
  predicate ColumnContains(r: Row, column: string, term: string) {
    Get(r, column).Str? && Contains(Lower(Get(r, column).s), Lower(term))
  }

  /** The search predicate: title or description. */
  predicate SearchMatch(r: Row, term: string)
    ensures SearchMatch(r, term) ==> Get(r, TitleField).Str? || Get(r, DescriptionField).Str?
  {
    ColumnContains(r, TitleField, term) || ColumnContains(r, DescriptionField, term)
  }

  /** `search_tasks(search_term)`. */
  function SearchTasks(tasks: map<int, Row>, term: string): (r: map<int, Row>)
    ensures r.Keys <= tasks.Keys
    ensures forall k :: k in r ==> r[k] == tasks[k]
    ensures forall k :: k in tasks ==> (k in r <==> SearchMatch(tasks[k], term))
  {
    map k | k in tasks && SearchMatch(tasks[k], term) :: tasks[k]
  }

  /** A term and its lower-cased form find the same tasks. */
  lemma SearchIgnoresCase(tasks: map<int, Row>, term: string)
    ensures SearchTasks(tasks, Lower(term)) == SearchTasks(tasks, term)
  {
    LowerIdempotent(term);
  }

  /** The empty term finds every task that has a title or a description. */
  lemma EmptyTermFindsAll(tasks: map<int, Row>)
    requires forall k :: k in tasks ==> Get(tasks[k], TitleField).Str?
    ensures SearchTasks(tasks, "") == tasks
  {
    forall k | k in tasks
      ensures SearchMatch(tasks[k], "")
    {
      ContainsEmpty(Lower(Get(tasks[k], TitleField).s));
    }
  }

  /** A task found by a term is also found by every substring of it. */
  lemma SubstringFindsMore(tasks: map<int, Row>, term: string, part: string)
    requires Contains(term, part)
    ensures SearchTasks(tasks, term).Keys <= SearchTasks(tasks, part).Keys
  {
    LowerContains(term, part);
    forall k | k in SearchTasks(tasks, term)
      ensures SearchMatch(tasks[k], part)
    {
      if ColumnContains(tasks[k], TitleField, term) {
        ContainsTransitive(Lower(Get(tasks[k], TitleField).s), Lower(term), Lower(part));
      } else {
        ContainsTransitive(Lower(Get(tasks[k], DescriptionField).s), Lower(term), Lower(part));
      }
    }
  }

  /** A difference at position `i` rules out a prefix. */
  lemma NotPrefix(s: string, t: string, i: nat)
    requires i < |t| && (|s| < |t| || s[i] != t[i])
    ensures !StartsWith(s, t)
  {
  }

  /** A string shorter than the term does not contain it. */
  lemma {:induction false} ShorterLacks(s: string, t: string)
    requires |s| < |t|
    ensures !Contains(s, t)
    decreases |s|
  {
    if |s| > 0 {
      ShorterLacks(s[1..], t);
    }
  }

  lemma LowerCaseWords()
    ensures Lower("test") == "test" && Lower("tes") == "tes" && Lower("other") == "other" && Lower("d") == "d"
  {
    assert Lower("test") == "test" && Lower("tes") == "tes";
    assert Lower("other") == "other" && Lower("d") == "d";
  }

  lemma OtherLacksTes()
    ensures !Contains("other", "tes")
  {
    NotPrefix("other", "tes", 0);
    NotPrefix("ther", "tes", 1);
    NotPrefix("her", "tes", 0);
    assert "other"[1..] == "ther" && "ther"[1..] == "her" && "her"[1..] == "er";
    ShorterLacks("er", "tes");
  }

  /** Searching "tes" among a task titled "test" and one titled "other" finds only the first. */
  lemma SearchExample(t1: Row, t2: Row)
    requires Get(t1, TitleField) == Str("test") && Get(t1, DescriptionField) == Str("d")
    requires Get(t2, TitleField) == Str("other") && Get(t2, DescriptionField) == Str("d")
    ensures SearchTasks(map[1 := t1, 2 := t2], "tes").Keys == {1}
  {
    LowerCaseWords();
    assert StartsWith("test", "tes");
    OtherLacksTes();
    ShorterLacks("d", "tes");
  }
}
