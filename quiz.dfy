/** The quiz engine of lib/quiz.ts: catalog entries, question generation with
    distractors, quiz assembly and scoring. */
module Quiz {
  import opened Common
  import opened Shuffle

  datatype Character = Character(
    id: string,
    glyph: string,
    pinyin: string,
    meaning: string,
    strokeCount: int,
    difficultyLevel: int)

  datatype QuestionType = CharacterToMeaning | CharacterToPinyin | MeaningToCharacter

  /** The field of a character that serves as answer text. */
  datatype AnswerField = MeaningField | PinyinField | GlyphField

  datatype Question = Question(
    id: string,
    qtype: QuestionType,
    prompt: string,
    correctAnswer: string,
    options: seq<string>,
    character: Character)

  datatype Answer = Answer(questionId: string, selectedAnswer: string, isCorrect: bool, timeSpent: int)

  datatype QuizResult = QuizResult(
    totalQuestions: nat,
    correctAnswers: nat,
    percentage: int,
    answers: seq<Answer>,
    duration: int)

  /** Entry `k` of the built-in catalog. */
  function SampleCharacter(k: nat): Character
    requires k < 12
  {
    match k
    case 0 => Character("1", "你", "nǐ", "you", 7, 1)
    case 1 => Character("2", "好", "hǎo", "good", 6, 1)
    case 2 => Character("3", "我", "wǒ", "I, me", 7, 1)
    case 3 => Character("4", "是", "shì", "to be", 9, 1)
    case 4 => Character("5", "的", "de", "possessive particle", 8, 1)
    case 5 => Character("6", "人", "rén", "person", 2, 1)
    case 6 => Character("7", "中", "zhōng", "middle, China", 4, 1)
    case 7 => Character("8", "国", "guó", "country", 8, 1)
    case 8 => Character("9", "大", "dà", "big", 3, 1)
    case 9 => Character("10", "学", "xué", "study, learn", 8, 1)
    case 10 => Character("11", "生", "shēng", "life, birth", 5, 1)
    case _ => Character("12", "会", "huì", "can, meeting", 6, 2)
  }

  /** The built-in catalog used when the caller supplies none. */
  function SampleCharacters(): (cs: seq<Character>)
    ensures |cs| == 12
  {
    seq(12, k requires 0 <= k < 12 => SampleCharacter(k))
  }

  const QuestionTypes: seq<QuestionType> := [CharacterToMeaning, CharacterToPinyin, MeaningToCharacter]

  function TypeName(t: QuestionType): string
  {
    match t
    case CharacterToMeaning => "character-to-meaning"
    case CharacterToPinyin => "character-to-pinyin"
    case MeaningToCharacter => "meaning-to-character"
  }

  function AnswerFieldFor(t: QuestionType): AnswerField
  {
    match t
    case CharacterToMeaning => MeaningField
    case CharacterToPinyin => PinyinField
    case MeaningToCharacter => GlyphField
  }

  function FieldOf(c: Character, f: AnswerField): string
  {
    match f
    case MeaningField => c.meaning
    case PinyinField => c.pinyin
    case GlyphField => c.glyph
  }

  /** The fixed padding words, one list per answer field. */
  function GenericAnswers(f: AnswerField): seq<string>
  {
    match f
    case MeaningField => ["water", "fire", "tree", "mountain", "river", "sun", "moon"]
    case PinyinField => ["má", "tā", "lái", "qù", "yǒu", "méi", "duō"]
    case GlyphField => ["水", "火", "木", "山", "河", "日", "月"]
  }

  function Prompt(t: QuestionType, c: Character): string
  {
    match t
    case CharacterToMeaning => "What does \"" + c.glyph + "\" mean?"
    case CharacterToPinyin => "How do you pronounce \"" + c.glyph + "\"?"
    case MeaningToCharacter => "Which character means \"" + c.meaning + "\"?"
  }

  // ---------------------------------------------------------------------
  // generateWrongAnswers

  /** The catalog entries whose `f` field differs from `correct`, in catalog order. */
  function Alternatives(catalog: seq<Character>, correct: string, f: AnswerField): (alts: seq<Character>)
    ensures multiset(alts) <= multiset(catalog)
    ensures forall c :: c in alts ==> c in catalog && FieldOf(c, f) != correct
    ensures forall c :: c in catalog && FieldOf(c, f) != correct ==> c in alts
  {
    if catalog == [] then []
    else
      var tail := Alternatives(catalog[1..], correct, f);
      assert catalog == [catalog[0]] + catalog[1..];
      if FieldOf(catalog[0], f) != correct then [catalog[0]] + tail else tail
  }

  /** `cs.map(c => c[f])`. */
  function FieldValues(cs: seq<Character>, f: AnswerField): (vs: seq<string>)
    ensures |vs| == |cs|
  {
    if cs == [] then [] else [FieldOf(cs[0], f)] + FieldValues(cs[1..], f)
  }

  lemma {:induction false} FieldValuesAt(cs: seq<Character>, f: AnswerField, i: nat)
    requires i < |cs|
    ensures FieldValues(cs, f)[i] == FieldOf(cs[i], f)
  {
    if i > 0 {
      FieldValuesAt(cs[1..], f, i - 1);
    }
  }

  lemma {:induction false} FieldValuesConcat(a: seq<Character>, b: seq<Character>, f: AnswerField)
    ensures FieldValues(a + b, f) == FieldValues(a, f) + FieldValues(b, f)
  {
    if a == [] {
      assert a + b == b;
    } else {
      assert (a + b)[1..] == a[1..] + b;
      FieldValuesConcat(a[1..], b, f);
    }
  }

  /** Removing position `j` takes one copy of `t[j]` out of the multiset. */
  lemma RemoveAt<T>(t: seq<T>, j: nat)
    requires j < |t|
    ensures multiset(t[..j] + t[j + 1..]) == multiset(t) - multiset{t[j]}
  {
    assert t == t[..j] + [t[j]] + t[j + 1..];
  }

  /** The field values of `t` are those of `t` without position `j`, plus the
      value at `j`. */
  lemma FieldValuesRemoveAt(t: seq<Character>, j: nat, f: AnswerField)
    requires j < |t|
    ensures multiset(FieldValues(t, f))
      == multiset(FieldValues(t[..j] + t[j + 1..], f)) + multiset{FieldOf(t[j], f)}
  {
    var before, after := t[..j], t[j + 1..];
    assert t == before + [t[j]] + after;
    FieldValuesConcat(before + [t[j]], after, f);
    FieldValuesConcat(before, [t[j]], f);
    FieldValuesConcat(before, after, f);
    assert FieldValues([t[j]], f) == [FieldOf(t[j], f)];
  }

  lemma DropFirst<T>(s: seq<T>)
    requires |s| > 0
    ensures multiset(s[1..]) == multiset(s) - multiset{s[0]}
  {
    assert s == [s[0]] + s[1..];
  }

  lemma FieldValuesFirst(s: seq<Character>, f: AnswerField)
    requires |s| > 0
    ensures multiset(FieldValues(s, f)) == multiset(FieldValues(s[1..], f)) + multiset{FieldOf(s[0], f)}
  {
    assert FieldValues(s, f) == [FieldOf(s[0], f)] + FieldValues(s[1..], f);
  }

  /** Mapping to a field respects permutations: shuffling the catalog entries
      shuffles their field values. */
  lemma {:induction false} FieldValuesPermutation(s: seq<Character>, t: seq<Character>, f: AnswerField)
    requires multiset(s) == multiset(t)
    ensures multiset(FieldValues(s, f)) == multiset(FieldValues(t, f))
    decreases |s|
  {
    if s == [] {
      assert |t| == |multiset(t)|;
    } else {
      var x := s[0];
      assert x in multiset(t);
      var j :| 0 <= j < |t| && t[j] == x;
      var r := t[..j] + t[j + 1..];
      RemoveAt(t, j);
      DropFirst(s);
      FieldValuesPermutation(s[1..], r, f);
      FieldValuesRemoveAt(t, j, f);
      FieldValuesFirst(s, f);
    }
  }

  /** Every answer from position `m` on is the padding word for its position. */
  predicate PaddedFrom(w: seq<string>, m: nat, f: AnswerField)
  {
    forall k :: m <= k < |w| ==> w[k] == GenericAnswers(f)[k % 7]
  }

  /** What `generateWrongAnswers` promises: exactly three strings; the first
      `m = min(3, #alternatives)` are field values of distinct alternatives (a
      sub-multiset of the alternatives' values), and each later position `k` is
      the padding word `GenericAnswers(f)[k % 7]`. */
  ghost predicate ValidDistractors(w: seq<string>, correct: string, f: AnswerField, catalog: seq<Character>)
  {
    var alts := Alternatives(catalog, correct, f);
    var m := Min(3, |alts|);
    && |w| == 3
    && multiset(w[..m]) <= multiset(FieldValues(alts, f))
    && PaddedFrom(w, m, f)
  }

  method GenerateWrongAnswers(correct: string, f: AnswerField, catalog: seq<Character>, rng: seq<nat>)
    returns (wrong: seq<string>, rest: seq<nat>)
    ensures ValidDistractors(wrong, correct, f, catalog)
    ensures rest == Skip(rng, Swaps(|Alternatives(catalog, correct, f)|))
  {
    var alts := Alternatives(catalog, correct, f);
    var shuffled;
    shuffled, rest := ShuffleArray(alts, rng);
    var m := Min(3, |shuffled|);
    var picked := PickFieldValues(shuffled, m, f);
    wrong := PadWithGeneric(picked, f);
    ShuffledFieldValues(alts, shuffled, m, f);
  }

  /** The first loop of `generateWrongAnswers`: the answer field of each of
      the first `m` entries, in order. */
  method PickFieldValues(shuffled: seq<Character>, m: nat, f: AnswerField) returns (picked: seq<string>)
    requires m <= |shuffled|
    ensures picked == FieldValues(shuffled[..m], f)
  {
    picked := [];
    for i := 0 to m
      invariant picked == FieldValues(shuffled[..i], f)
    {
      FieldValuesConcat(shuffled[..i], [shuffled[i]], f);
      assert shuffled[..i + 1] == shuffled[..i] + [shuffled[i]];
      picked := picked + [FieldOf(shuffled[i], f)];
    }
  }

  /** The second loop of `generateWrongAnswers`: while fewer than three, push
      the generic word at the current length modulo 7. */
  method PadWithGeneric(picked: seq<string>, f: AnswerField) returns (wrong: seq<string>)
    requires |picked| <= 3
    ensures |wrong| == 3
    ensures wrong[..|picked|] == picked
    ensures PaddedFrom(wrong, |picked|, f)
  {
    wrong := picked;
    while |wrong| < 3
      invariant |picked| <= |wrong| <= 3
      invariant wrong[..|picked|] == picked
      invariant PaddedFrom(wrong, |picked|, f)
    {
      wrong := wrong + [GenericAnswers(f)[|wrong| % 7]];
    }
  }

  /** The field values of a prefix of a shuffled catalog are among the field
      values of the catalog. */
  lemma ShuffledFieldValues(alts: seq<Character>, shuffled: seq<Character>, m: nat, f: AnswerField)
    requires multiset(shuffled) == multiset(alts) && m <= |shuffled|
    ensures multiset(FieldValues(shuffled[..m], f)) <= multiset(FieldValues(alts, f))
  {
    FieldValuesPermutation(shuffled, alts, f);
    FieldValuesConcat(shuffled[..m], shuffled[m..], f);
    assert shuffled == shuffled[..m] + shuffled[m..];
  }

  /** Any three strings that meet `ValidDistractors` over a catalog with at
      least three alternatives differ from the correct answer and are field
      values of catalog entries. */
  lemma DistractorsAvoidCorrect(w: seq<string>, correct: string, f: AnswerField, catalog: seq<Character>)
    requires ValidDistractors(w, correct, f, catalog)
    requires |Alternatives(catalog, correct, f)| >= 3
    ensures forall k :: 0 <= k < 3 ==> w[k] != correct && exists c :: c in catalog && FieldOf(c, f) == w[k]
  {
    var alts := Alternatives(catalog, correct, f);
    var values := FieldValues(alts, f);
    forall k | 0 <= k < 3
      ensures w[k] != correct && exists c :: c in catalog && FieldOf(c, f) == w[k]
    {
      assert w[..3][k] in multiset(w[..3]);
      assert w[k] in multiset(values);
      var i :| 0 <= i < |values| && values[i] == w[k];
      FieldValuesAt(alts, f, i);
      assert alts[i] in alts;
    }
  }

  /** With at least three alternatives the correct answer occurs once among
      `[correct] + w`. */
  lemma CorrectOccursOnce(w: seq<string>, correct: string, f: AnswerField, catalog: seq<Character>)
    requires ValidDistractors(w, correct, f, catalog)
    requires |Alternatives(catalog, correct, f)| >= 3
    ensures multiset([correct] + w)[correct] == 1
  {
    DistractorsAvoidCorrect(w, correct, f, catalog);
    OnceInFront(w, correct);
  }

  /** A value absent from `w` occurs once in `[x] + w`. */
  lemma OnceInFront<T>(w: seq<T>, x: T)
    requires forall k :: 0 <= k < |w| ==> w[k] != x
    ensures multiset([x] + w)[x] == 1
  {
    assert x !in multiset(w);
    assert multiset([x] + w) == multiset{x} + multiset(w);
  }

  // ---------------------------------------------------------------------
  // generateQuestion

  /** The padding words `generateWrongAnswers` appends after `m` real distractors. */
  function Padding(f: AnswerField, m: nat): seq<string>
    requires m <= 3
  {
    GenericAnswers(f)[m..3]
  }

  /** The options other than (one copy of) the correct answer. */
  ghost function Distractors(q: Question): multiset<string>
  {
    multiset(q.options) - multiset{q.correctAnswer}
  }

  /** What a generated question satisfies relative to the catalog it was drawn
      against: its correct answer is the character's field for its type; its
      four options are the correct answer plus three distractors, of which the
      padding words are one part and the rest are field values of distinct
      alternatives; with three or more alternatives the correct answer occurs
      exactly once. */
  ghost predicate WellFormedQuestion(q: Question, catalog: seq<Character>)
  {
    var f := AnswerFieldFor(q.qtype);
    var alts := Alternatives(catalog, q.correctAnswer, f);
    var pad := multiset(Padding(f, Min(3, |alts|)));
    && q.correctAnswer == FieldOf(q.character, f)
    && q.prompt == Prompt(q.qtype, q.character)
    && |q.options| == 4
    && q.correctAnswer in q.options
    && pad <= Distractors(q)
    && Distractors(q) - pad <= multiset(FieldValues(alts, f))
    && (|alts| >= 3 ==> multiset(q.options)[q.correctAnswer] == 1)
  }

  /** Padding from `m` on in three strings is exactly `Padding(f, m)`. */
  lemma PaddedTail(w: seq<string>, m: nat, f: AnswerField)
    requires |w| == 3 && m <= 3 && PaddedFrom(w, m, f)
    ensures w[m..] == Padding(f, m)
  {
    forall k | 0 <= k < 3 - m
      ensures w[m..][k] == Padding(f, m)[k]
    {
      assert (m + k) % 7 == m + k;
    }
  }

  /** Prepending `x` and taking one copy of it away leaves `w`, split at `m`. */
  lemma BagSplit<T>(w: seq<T>, x: T, m: nat)
    requires m <= |w|
    ensures multiset([x] + w) - multiset{x} == multiset(w[..m]) + multiset(w[m..])
  {
    assert w == w[..m] + w[m..];
  }

  /** The options built from valid distractors split as `WellFormedQuestion` says. */
  lemma DistractorBag(w: seq<string>, correct: string, f: AnswerField, catalog: seq<Character>)
    requires ValidDistractors(w, correct, f, catalog)
    ensures var m := Min(3, |Alternatives(catalog, correct, f)|);
      && multiset([correct] + w) - multiset{correct} == multiset(w[..m]) + multiset(Padding(f, m))
  {
    var m := Min(3, |Alternatives(catalog, correct, f)|);
    PaddedTail(w, m, f);
    BagSplit(w, correct, m);
  }

  method GenerateQuestion(c: Character, catalog: seq<Character>, rng: seq<nat>, now: nat)
    returns (q: Question, rest: seq<nat>)
    ensures q.character == c
    ensures q.qtype == QuestionTypes[Draw(rng, 3)]
    ensures q.id == c.id + "-" + TypeName(q.qtype) + "-" + NatToString(now)
    ensures WellFormedQuestion(q, catalog)
  {
    var t := QuestionTypes[Draw(rng, 3)];
    rest := Tail(rng);
    var f := AnswerFieldFor(t);
    var correct := FieldOf(c, f);
    var wrong;
    wrong, rest := GenerateWrongAnswers(correct, f, catalog, rest);
    var options;
    options, rest := ShuffleArray([correct] + wrong, rest);
    q := Question(c.id + "-" + TypeName(t) + "-" + NatToString(now), t, Prompt(t, c), correct, options, c);
    assert correct in multiset(options);
    DistractorBag(wrong, correct, f, catalog);
    if |Alternatives(catalog, correct, f)| >= 3 {
      CorrectOccursOnce(wrong, correct, f, catalog);
    }
  }

  /** No two entries of `cs` share their `f` field. */
  predicate DistinctFields(cs: seq<Character>, f: AnswerField)
  {
    forall i, j :: 0 <= i < j < |cs| ==> FieldOf(cs[i], f) != FieldOf(cs[j], f)
  }

  lemma DistinctFieldsTail(catalog: seq<Character>, f: AnswerField)
    requires |catalog| > 0 && DistinctFields(catalog, f)
    ensures DistinctFields(catalog[1..], f)
  {
    var tail := catalog[1..];
    forall i, j | 0 <= i < j < |tail| ensures FieldOf(tail[i], f) != FieldOf(tail[j], f) {
      assert tail[i] == catalog[i + 1] && tail[j] == catalog[j + 1];
    }
  }

  /** The first entry's value is not among the later alternatives' values. */
  lemma HeadValueNotLater(catalog: seq<Character>, correct: string, f: AnswerField)
    requires |catalog| > 0 && DistinctFields(catalog, f)
    ensures FieldOf(catalog[0], f) !in multiset(FieldValues(Alternatives(catalog[1..], correct, f), f))
  {
    var tail := catalog[1..];
    var rest := Alternatives(tail, correct, f);
    var v := FieldOf(catalog[0], f);
    forall i | 0 <= i < |rest| ensures FieldValues(rest, f)[i] != v {
      FieldValuesAt(rest, f, i);
      assert rest[i] in tail;
      var j :| 0 <= j < |tail| && tail[j] == rest[i];
      assert tail[j] == catalog[j + 1];
    }
  }

  /** Over a catalog whose `f` fields are distinct, each value occurs at most
      once among the alternatives' fields. */
  lemma {:induction false} AlternativeValuesOnce(catalog: seq<Character>, correct: string, f: AnswerField, v: string)
    requires DistinctFields(catalog, f)
    ensures multiset(FieldValues(Alternatives(catalog, correct, f), f))[v] <= 1
  {
    if catalog != [] {
      var tail := catalog[1..];
      DistinctFieldsTail(catalog, f);
      AlternativeValuesOnce(tail, correct, f, v);
      var rest := Alternatives(tail, correct, f);
      if FieldOf(catalog[0], f) != correct {
        var alts := [catalog[0]] + rest;
        assert Alternatives(catalog, correct, f) == alts;
        assert alts[1..] == rest;
        FieldValuesFirst(alts, f);
        HeadValueNotLater(catalog, correct, f);
      }
    }
  }

  /** Removing one copy of `x` leaves the count of any other value alone. */
  lemma CountWithout<T>(b: multiset<T>, x: T, v: T)
    requires v != x
    ensures (b - multiset{x})[v] == b[v]
  {
  }

  /** Two equal entries at different positions make a count of two. */
  lemma TwoPositions<T>(s: seq<T>, i: nat, j: nat)
    requires i < j < |s|
    ensures s[i] == s[j] ==> multiset(s)[s[i]] >= 2
  {
    assert s == s[..i] + [s[i]] + s[i + 1..j] + [s[j]] + s[j + 1..];
  }

  /** When the catalog's values for the question's field are distinct and at
      least three alternatives exist, a well-formed question has four
      pairwise different options. */
  lemma OptionsDistinct(q: Question, catalog: seq<Character>)
    requires WellFormedQuestion(q, catalog)
    requires DistinctFields(catalog, AnswerFieldFor(q.qtype))
    requires |Alternatives(catalog, q.correctAnswer, AnswerFieldFor(q.qtype))| >= 3
    ensures forall i, j :: 0 <= i < j < 4 ==> q.options[i] != q.options[j]
  {
    var f := AnswerFieldFor(q.qtype);
    var values := multiset(FieldValues(Alternatives(catalog, q.correctAnswer, f), f));
    assert Padding(f, 3) == [];
    assert Distractors(q) <= values;
    forall i, j | 0 <= i < j < 4 ensures q.options[i] != q.options[j] {
      var v := q.options[i];
      TwoPositions(q.options, i, j);
      if v != q.correctAnswer {
        CountWithout(multiset(q.options), q.correctAnswer, v);
        AlternativeValuesOnce(catalog, q.correctAnswer, f, v);
      }
    }
  }

  /** The sample catalog has twelve different meanings, pinyin spellings and glyphs. */
  lemma SampleFieldsDistinct(f: AnswerField)
    ensures DistinctFields(SampleCharacters(), f)
  {
    var cs := SampleCharacters();
    forall i, j | 0 <= i < j < 12 ensures FieldOf(cs[i], f) != FieldOf(cs[j], f) {
      assert cs[i] == SampleCharacter(i) && cs[j] == SampleCharacter(j);
    }
  }

  /** With no entry's field equal to `correct`, every entry is an alternative. */
  lemma {:induction false} AlternativesKeepAll(catalog: seq<Character>, correct: string, f: AnswerField)
    requires forall k :: 0 <= k < |catalog| ==> FieldOf(catalog[k], f) != correct
    ensures Alternatives(catalog, correct, f) == catalog
  {
    if catalog != [] {
      assert forall k :: 0 <= k < |catalog| - 1 ==> catalog[1..][k] == catalog[k + 1];
      AlternativesKeepAll(catalog[1..], correct, f);
      assert catalog == [catalog[0]] + catalog[1..];
    }
  }

  /** Over distinct fields the filter drops at most one entry. */
  lemma {:induction false} AlternativesDropAtMostOne(catalog: seq<Character>, correct: string, f: AnswerField)
    requires DistinctFields(catalog, f)
    ensures |Alternatives(catalog, correct, f)| >= |catalog| - 1
  {
    if catalog != [] {
      var tail := catalog[1..];
      DistinctFieldsTail(catalog, f);
      if FieldOf(catalog[0], f) == correct {
        assert forall k :: 0 <= k < |tail| ==> tail[k] == catalog[k + 1];
        AlternativesKeepAll(tail, correct, f);
      } else {
        AlternativesDropAtMostOne(tail, correct, f);
      }
    }
  }

  /** Every question well formed against the sample catalog has four
      different options. */
  lemma SampleQuestionOptionsDistinct(q: Question)
    requires WellFormedQuestion(q, SampleCharacters())
    ensures forall i, j :: 0 <= i < j < 4 ==> q.options[i] != q.options[j]
  {
    var f := AnswerFieldFor(q.qtype);
    SampleFieldsDistinct(f);
    AlternativesDropAtMostOne(SampleCharacters(), q.correctAnswer, f);
    OptionsDistinct(q, SampleCharacters());
  }

  // ---------------------------------------------------------------------
  // generateQuiz

  /** The catalog in use: the argument, or the sample catalog when it is empty. */
  function Available(catalog: seq<Character>): (avail: seq<Character>)
    ensures |avail| > 0
  {
    if |catalog| > 0 then catalog else SampleCharacters()
  }

  /** `xs.slice(0, Math.min(count, len))` keeps this many elements: a negative
      end counts back from the end, clamped at 0. */
  function SliceEnd(count: int, len: nat): (e: nat)
    ensures e <= len
    ensures count >= 0 ==> e == Min(count, len)
  {
    if count >= len then len
    else if count >= 0 then count
    else if len + count >= 0 then len + count
    else 0
  }

  /** The number of questions `generateQuiz` returns. */
  function QuizLength(count: int, len: nat): nat
  {
    if count >= 0 then count else SliceEnd(count, len)
  }

  function CharactersOf(qs: seq<Question>): (cs: seq<Character>)
    ensures |cs| == |qs|
    ensures forall i :: 0 <= i < |qs| ==> cs[i] == qs[i].character
  {
    seq(|qs|, i requires 0 <= i < |qs| => qs[i].character)
  }

  /** `qs` are well-formed questions about the characters `cs`, position by position. */
  ghost predicate GeneratedFrom(qs: seq<Question>, cs: seq<Character>, catalog: seq<Character>)
  {
    |qs| == |cs| && forall k :: 0 <= k < |qs| ==> qs[k].character == cs[k] && WellFormedQuestion(qs[k], catalog)
  }

  lemma GeneratedFromAppend(qs: seq<Question>, cs: seq<Character>, i: nat, q: Question, catalog: seq<Character>)
    requires i < |cs|
    requires GeneratedFrom(qs, cs[..i], catalog) && WellFormedQuestion(q, catalog) && q.character == cs[i]
    ensures GeneratedFrom(qs + [q], cs[..i + 1], catalog)
  {
    var qs', cs' := qs + [q], cs[..i + 1];
    forall k | 0 <= k < |qs'|
      ensures qs'[k].character == cs'[k] && WellFormedQuestion(qs'[k], catalog)
    {
      if k < i {
        assert qs'[k] == qs[k] && cs'[k] == cs[..i][k];
      }
    }
  }

  /** `characters.map(c => generateQuestion(c, catalog))`, threading the random stream. */
  method GenerateQuestions(characters: seq<Character>, catalog: seq<Character>, rng: seq<nat>, now: nat)
    returns (qs: seq<Question>, rest: seq<nat>)
    ensures GeneratedFrom(qs, characters, catalog)
  {
    qs := [];
    rest := rng;
    for i := 0 to |characters|
      invariant |qs| == i
      invariant GeneratedFrom(qs, characters[..i], catalog)
    {
      var q;
      q, rest := GenerateQuestion(characters[i], catalog, rest, now);
      GeneratedFromAppend(qs, characters, i, q, catalog);
      qs := qs + [q];
    }
    assert characters[..|characters|] == characters;
  }

  /** `shuffleArray(available).slice(0, min(count, length))`, topped up by the
      repeat loop. */
  method SelectCharacters(avail: seq<Character>, count: int, rng: seq<nat>)
    returns (selected: seq<Character>, rest: seq<nat>)
    requires |avail| > 0
    ensures |selected| == QuizLength(count, |avail|)
    ensures forall k :: 0 <= k < |selected| ==> selected[k] in avail
    ensures multiset(selected[..SliceEnd(count, |avail|)]) <= multiset(avail)
    ensures count >= |avail| ==> multiset(selected[..|avail|]) == multiset(avail)
  {
    var shuffled;
    shuffled, rest := ShuffleArray(avail, rng);
    var first := SliceEnd(count, |shuffled|);
    var start := shuffled[..first];
    PrefixSubMultiset(shuffled, first);
    assert first == |avail| ==> start == shuffled;
    forall k | 0 <= k < first ensures start[k] in avail {
      assert shuffled[k] in multiset(shuffled);
    }
    selected, rest := TopUp(avail, start, count, rest);
  }

  /** The repeat loop of `generateQuiz`: while fewer than `count` characters
      are selected, append a prefix of a fresh shuffle of the catalog, no
      longer than what is missing. */
  method TopUp(avail: seq<Character>, start: seq<Character>, count: int, rng: seq<nat>)
    returns (selected: seq<Character>, rest: seq<nat>)
    requires |avail| > 0
    requires forall k :: 0 <= k < |start| ==> start[k] in avail
    ensures |selected| == if count > |start| then count else |start|
    ensures selected[..|start|] == start
    ensures forall k :: 0 <= k < |selected| ==> selected[k] in avail
  {
    selected, rest := start, rng;
    while |selected| < count
      invariant |start| <= |selected|
      invariant |selected| == |start| || |selected| <= count
      invariant selected[..|start|] == start
      invariant forall k :: 0 <= k < |selected| ==> selected[k] in avail
      decreases count - |selected|
    {
      var more;
      more, rest := ShuffleArray(avail, rest);
      var take := Min(count - |selected|, |more|);
      forall k | 0 <= k < take ensures more[k] in avail {
        assert more[k] in multiset(more);
      }
      selected := selected + more[..take];
    }
  }

  method GenerateQuiz(catalog: seq<Character>, count: int, rng: seq<nat>, now: nat)
    returns (qs: seq<Question>, rest: seq<nat>)
    ensures |qs| == QuizLength(count, |Available(catalog)|)
    ensures forall i :: 0 <= i < |qs| ==> qs[i].character in Available(catalog)
    ensures forall i :: 0 <= i < |qs| ==> WellFormedQuestion(qs[i], Available(catalog))
    ensures multiset(CharactersOf(qs)[..SliceEnd(count, |Available(catalog)|)]) <= multiset(Available(catalog))
    ensures count >= |Available(catalog)| ==>
      multiset(CharactersOf(qs)[..|Available(catalog)|]) == multiset(Available(catalog))
  {
    var avail := Available(catalog);
    var selected;
    selected, rest := SelectCharacters(avail, count, rng);
    qs, rest := GenerateQuestions(selected, avail, rest, now);
    assert CharactersOf(qs) == selected;
  }

  // ---------------------------------------------------------------------
  // calculateQuizResult

  function CountCorrect(answers: seq<Answer>): (n: nat)
    ensures n <= |answers|
  {
    if answers == [] then 0
    else (if answers[0].isCorrect then 1 else 0) + CountCorrect(answers[1..])
  }

  /** The sum of the answers' times: never negative when no time is. */
  function TotalTime(answers: seq<Answer>): (t: int)
    ensures (forall k :: 0 <= k < |answers| ==> answers[k].timeSpent >= 0) ==> t >= 0
  {
    if answers == [] then 0 else answers[0].timeSpent + TotalTime(answers[1..])
  }

  /** `Math.round(correct / total * 100)` computed exactly, rounding halves
      up: `p - 1/2 <= 100 * correct / total < p + 1/2`. */
  function RoundedPercent(correct: int, total: nat): (p: int)
    requires total > 0
    ensures total * (2 * p - 1) <= 200 * correct < total * (2 * p + 1)
  {
    NearestHalfUp(200 * correct, total);
    (200 * correct + total) / (2 * total)
  }

  /** `(a + n) / (2n)` is the integer nearest to `a / (2n)`, halves rounded up. */
  lemma NearestHalfUp(a: int, n: int)
    requires n > 0
    ensures var q := (a + n) / (2 * n); n * (2 * q - 1) <= a < n * (2 * q + 1)
  {
    var q, r := (a + n) / (2 * n), (a + n) % (2 * n);
    assert a + n == 2 * n * q + r && 0 <= r < 2 * n;
    assert n * (2 * q - 1) == 2 * n * q - n;
    assert n * (2 * q + 1) == 2 * n * q + n;
  }

  function CalculateQuizResult(questions: seq<Question>, answers: seq<Answer>): (r: QuizResult)
    requires |questions| > 0
    ensures r.totalQuestions == |questions| && r.answers == answers
    ensures r.correctAnswers <= |answers|
    ensures r.correctAnswers <= r.totalQuestions ==> 0 <= r.percentage <= 100
    ensures r.correctAnswers == 0 ==> r.percentage == 0
    ensures r.correctAnswers == r.totalQuestions ==> r.percentage == 100
  {
    var correct := CountCorrect(answers);
    var total := |questions|;
    PercentBounds(correct, total);
    QuizResult(total, correct, RoundedPercent(correct, total), answers, TotalTime(answers))
  }

  lemma MulCancelLess(d: int, x: int, y: int)
    requires d > 0 && d * x < d * y
    ensures x < y
  {
  }

  lemma DivBetween(a: int, d: int, lo: int, hi: int)
    requires d > 0 && lo * d <= a < (hi + 1) * d
    ensures lo <= a / d <= hi
  {
    var q := a / d;
    assert a == d * q + a % d;
    MulCancelLess(d, lo, q + 1);
    MulCancelLess(d, q, hi + 1);
  }

  lemma PercentBounds(correct: nat, total: nat)
    requires total > 0
    ensures correct <= total ==> 0 <= RoundedPercent(correct, total) <= 100
    ensures correct == 0 ==> RoundedPercent(correct, total) == 0
    ensures correct == total ==> RoundedPercent(correct, total) == 100
  {
    if correct <= total {
      DivBetween(200 * correct + total, 2 * total, 0, 100);
    }
    if correct == 0 {
      DivBetween(total, 2 * total, 0, 0);
    }
    if correct == total {
      DivBetween(201 * total, 2 * total, 100, 100);
    }
  }

  /** The positions holding a correct answer. */
  ghost function CorrectPositions(answers: seq<Answer>): set<int>
  {
    set i | 0 <= i < |answers| && answers[i].isCorrect
  }

  lemma CorrectPositionsAppend(answers: seq<Answer>, a: Answer)
    ensures CorrectPositions(answers + [a])
      == CorrectPositions(answers) + (if a.isCorrect then {|answers|} else {})
    ensures |answers| !in CorrectPositions(answers)
  {
    var s := answers + [a];
    forall i | 0 <= i < |answers| ensures s[i] == answers[i] {}
  }

  /** `answers.filter(a => a.isCorrect).length` counts the positions of
      correct answers. */
  lemma {:induction false} CountCorrectIsCorrectPositions(answers: seq<Answer>)
    ensures CountCorrect(answers) == |CorrectPositions(answers)|
    decreases |answers|
  {
    if answers != [] {
      var n := |answers| - 1;
      var init := answers[..n];
      assert init + [answers[n]] == answers;
      CountCorrectIsCorrectPositions(init);
      ScoreAppend(init, answers[n]);
      CorrectPositionsAppend(init, answers[n]);
    }
  }

  /** Scoring is compositional: appending an answer adds its correctness and
      its time. */
  lemma {:induction false} ScoreAppend(answers: seq<Answer>, a: Answer)
    ensures CountCorrect(answers + [a]) == CountCorrect(answers) + (if a.isCorrect then 1 else 0)
    ensures TotalTime(answers + [a]) == TotalTime(answers) + a.timeSpent
  {
    if answers != [] {
      assert (answers + [a])[1..] == answers[1..] + [a];
      ScoreAppend(answers[1..], a);
    }
  }

  /** Eight correct answers out of ten score 80 percent. */
  lemma EightOfTenIsEighty()
    ensures RoundedPercent(8, 10) == 80
  {
  }

  // ---------------------------------------------------------------------
  // getPerformanceMessage

  /** The six messages, best band first. */
  function PerformanceMessages(): seq<string>
  {
    [
    "Excellent! 优秀! You're mastering Chinese characters!",
    "Great job! 很好! You're doing really well!",
    "Good work! 不错! Keep practicing!",
    "Not bad! 还可以! You're making progress!",
    "Keep trying! 加油! Practice makes perfect!",
    "Don't give up! 别放弃! Every expert was once a beginner!"
    ]
  }

  /** The score band, 0 for the best: thresholds 90, 80, 70, 60 and 50. */
  function PerformanceBand(percentage: int): (b: nat)
    ensures b < 6
    ensures b == 0 <==> percentage >= 90
    ensures b == 5 <==> percentage < 50
  {
    if percentage >= 90 then 0
    else if percentage >= 80 then 1
    else if percentage >= 70 then 2
    else if percentage >= 60 then 3
    else if percentage >= 50 then 4
    else 5
  }

  function GetPerformanceMessage(percentage: int): (m: string)
    ensures m == PerformanceMessages()[PerformanceBand(percentage)]
  {
    if percentage >= 90 then "Excellent! 优秀! You're mastering Chinese characters!"
    else if percentage >= 80 then "Great job! 很好! You're doing really well!"
    else if percentage >= 70 then "Good work! 不错! Keep practicing!"
    else if percentage >= 60 then "Not bad! 还可以! You're making progress!"
    else if percentage >= 50 then "Keep trying! 加油! Practice makes perfect!"
    else "Don't give up! 别放弃! Every expert was once a beginner!"
  }

  /** A higher score never falls in a worse band, and between 50 and 99 the
      band is fixed by the tens digit. */
  lemma PerformanceBandMonotone(p: int, q: int)
    requires p <= q
    ensures PerformanceBand(q) <= PerformanceBand(p)
    ensures 50 <= p < 100 ==> PerformanceBand(p) == 9 - p / 10
  {
  }
}
