/** The keyword intent router both demo programs hand-code as an if/elif
    chain: an ordered table of categories, each a list of trigger keywords
    and one reply; the lower-cased question goes to the reply of the first
    category one of whose keywords occurs in it, else to a fallback reply. */
module Router {
  import opened Text

  datatype Category<R> = Category(keywords: seq<string>, reply: R)

  /** Some keyword of `c` occurs in `text`. */
  ghost predicate Hits<R>(c: Category<R>, text: string) {
    exists j :: 0 <= j < |c.keywords| && Contains(text, c.keywords[j])
  }

  /** Category `i` is the earliest one in `table` that `text` hits. */
  ghost predicate FirstHit<R>(table: seq<Category<R>>, text: string, i: int) {
    && 0 <= i < |table|
    && Hits(table[i], text)
    && forall j :: 0 <= j < i ==> !Hits(table[j], text)
  }

  /** `text` hits no category of `table`. */
  ghost predicate NoHit<R>(table: seq<Category<R>>, text: string) {
    forall j :: 0 <= j < |table| ==> !Hits(table[j], text)
  }

  /** The replies of the table and the fallback are pairwise distinct, so a
      reply tells which branch was taken. */
  ghost predicate DistinctReplies<R>(table: seq<Category<R>>, fallback: R) {
    && (forall j :: 0 <= j < |table| ==> table[j].reply != fallback)
    && (forall i, j :: 0 <= i < j < |table| ==> table[i].reply != table[j].reply)
  }

  /** Python's `any(word in text for word in keywords)`. */
  function AnyKeyword(keywords: seq<string>, text: string): (r: bool)
    ensures r <==> exists j :: 0 <= j < |keywords| && Contains(text, keywords[j])
  {
    if keywords == [] then false
    else
      var rest := AnyKeyword(keywords[1..], text);
      assert rest ==> exists j :: 0 <= j < |keywords| && Contains(text, keywords[j]) by {
        if rest {
          var j :| 0 <= j < |keywords[1..]| && Contains(text, keywords[1..][j]);
          assert keywords[j + 1] == keywords[1..][j];
        }
      }
      Contains(text, keywords[0]) || rest
  }

  /** `text` misses category `c` when, for each keyword, the character at
      position `marks[j]` of keyword `j` does not occur in `text`. */
  lemma MissedByMarks<R>(c: Category<R>, text: string, marks: seq<nat>)
    requires |marks| == |c.keywords|
    requires forall j :: 0 <= j < |marks| ==> marks[j] < |c.keywords[j]| && c.keywords[j][marks[j]] !in text
    ensures !Hits(c, text)
  {
    forall j | 0 <= j < |c.keywords| ensures !Contains(text, c.keywords[j]) {
      AbsentCharNotContained(text, c.keywords[j], c.keywords[j][marks[j]]);
    }
  }

  /** The if/elif chain over an already lower-cased text. */
  function Select<R>(table: seq<Category<R>>, fallback: R, text: string): R {
    if table == [] then fallback
    else if AnyKeyword(table[0].keywords, text) then table[0].reply
    else Select(table[1..], fallback, text)
  }

  /** The router: lower-case the question, then take the first category hit. */
  function Route<R>(table: seq<Category<R>>, fallback: R, question: string): R {
    Select(table, fallback, Lower(question))
  }

  lemma {:induction false} SelectFirstHit<R>(table: seq<Category<R>>, fallback: R, text: string, i: int)
    requires FirstHit(table, text, i)
    ensures Select(table, fallback, text) == table[i].reply
    decreases i
  {
    if i > 0 {
      assert !Hits(table[0], text);
      assert FirstHit(table[1..], text, i - 1) by {
        forall j | 0 <= j < i - 1 ensures !Hits(table[1..][j], text) {
          assert table[1..][j] == table[j + 1];
        }
      }
      SelectFirstHit(table[1..], fallback, text, i - 1);
    }
  }

  lemma {:induction false} SelectNoHit<R>(table: seq<Category<R>>, fallback: R, text: string)
    requires NoHit(table, text)
    ensures Select(table, fallback, text) == fallback
    decreases |table|
  {
    if table != [] {
      assert !Hits(table[0], text);
      assert NoHit(table[1..], text) by {
        forall j | 0 <= j < |table| - 1 ensures !Hits(table[1..][j], text) {
          assert table[1..][j] == table[j + 1];
        }
      }
      SelectNoHit(table[1..], fallback, text);
    }
  }

  /** Every question either hits no category, or has a first category hit. */
  lemma {:induction false} HitOrNot<R>(table: seq<Category<R>>, text: string)
    ensures NoHit(table, text) || exists i :: FirstHit(table, text, i)
    decreases |table|
  {
    if table != [] && !Hits(table[0], text) {
      HitOrNot(table[1..], text);
      if exists i :: FirstHit(table[1..], text, i) {
        var i :| FirstHit(table[1..], text, i);
        assert FirstHit(table, text, i + 1) by {
          forall j | 0 <= j < i + 1 ensures !Hits(table[j], text) {
            if j > 0 { assert table[j] == table[1..][j - 1]; }
          }
        }
      } else {
        assert NoHit(table, text) by {
          forall j | 0 <= j < |table| ensures !Hits(table[j], text) {
            if j > 0 { assert table[j] == table[1..][j - 1]; }
          }
        }
      }
    } else if table != [] {
      assert FirstHit(table, text, 0);
    }
  }

  /** First match wins: the earliest category hit by the lower-cased
      question supplies the reply. */
  lemma RouteFirstHit<R>(table: seq<Category<R>>, fallback: R, question: string, i: int)
    requires FirstHit(table, Lower(question), i)
    ensures Route(table, fallback, question) == table[i].reply
  {
    SelectFirstHit(table, fallback, Lower(question), i);
  }

  /** A question no category hits gets the fallback reply. */
  lemma RouteNoHit<R>(table: seq<Category<R>>, fallback: R, question: string)
    requires NoHit(table, Lower(question))
    ensures Route(table, fallback, question) == fallback
  {
    SelectNoHit(table, fallback, Lower(question));
  }

  /** Priority: when category `i` is hit, the reply comes from category `i`
      or from an earlier one, never from a later one or the fallback. */
  lemma RouteNoLaterThanHit<R>(table: seq<Category<R>>, fallback: R, question: string, i: int)
    requires 0 <= i < |table| && Hits(table[i], Lower(question))
    ensures exists j :: 0 <= j <= i && FirstHit(table, Lower(question), j)
                        && Route(table, fallback, question) == table[j].reply
  {
    HitOrNot(table, Lower(question));
    var j :| FirstHit(table, Lower(question), j);
    SelectFirstHit(table, fallback, Lower(question), j);
  }

  /** With distinct replies, the reply of category `i` is returned exactly
      when `i` is the first category hit. */
  lemma RouteReplyIff<R>(table: seq<Category<R>>, fallback: R, question: string, i: int)
    requires DistinctReplies(table, fallback) && 0 <= i < |table|
    ensures Route(table, fallback, question) == table[i].reply <==> FirstHit(table, Lower(question), i)
  {
    HitOrNot(table, Lower(question));
    if NoHit(table, Lower(question)) {
      SelectNoHit(table, fallback, Lower(question));
    } else {
      var j :| FirstHit(table, Lower(question), j);
      SelectFirstHit(table, fallback, Lower(question), j);
      assert FirstHit(table, Lower(question), i) ==> i == j;
    }
  }

  /** With distinct replies, the fallback is returned exactly when no
      category is hit. */
  lemma RouteFallbackIff<R>(table: seq<Category<R>>, fallback: R, question: string)
    requires DistinctReplies(table, fallback)
    ensures Route(table, fallback, question) == fallback <==> NoHit(table, Lower(question))
  {
    HitOrNot(table, Lower(question));
    if NoHit(table, Lower(question)) {
      SelectNoHit(table, fallback, Lower(question));
    } else {
      var j :| FirstHit(table, Lower(question), j);
      SelectFirstHit(table, fallback, Lower(question), j);
    }
  }

  /** Case-insensitivity: questions that differ only in the case of ASCII
      letters are routed alike. */
  lemma RouteIgnoresCase<R>(table: seq<Category<R>>, fallback: R, a: string, b: string)
    requires EqualIgnoringCase(a, b)
    ensures Route(table, fallback, a) == Route(table, fallback, b)
  {
    LowerIgnoresCase(a, b);
  }

  /** Lower-casing the question first changes nothing. */
  lemma RouteOfLowered<R>(table: seq<Category<R>>, fallback: R, question: string)
    ensures Route(table, fallback, Lower(question)) == Route(table, fallback, question)
  {
    LowerIdempotent(question);
  }

  /** When no keyword is empty, the empty question gets the fallback. */
  lemma RouteEmpty<R>(table: seq<Category<R>>, fallback: R)
    requires forall i, j :: 0 <= i < |table| && 0 <= j < |table[i].keywords| ==> table[i].keywords[j] != []
    ensures Route(table, fallback, "") == fallback
  {
    assert NoHit(table, Lower(""));
    SelectNoHit(table, fallback, Lower(""));
  }
}
