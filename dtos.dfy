/**
 * The request bodies the controllers validate before acting, and their
 * validation rules (the data annotations on each property).
 *
 * `[Required]` on a string rejects null, empty and white-space-only values;
 * the length and range annotations accept null and otherwise bound the
 * length (of a string, in UTF-16 code units as `string.Length` counts them,
 * so a character above U+FFFF counts twice; of a list, in elements) or the
 * value.
 */
module Dtos {
  import opened Wrappers
  import opened Text
  import opened Entities

  /** `[Required]` on a string. */
  predicate Required(s: Option<string>) {
    !IsNullOrWhiteSpace(s)
  }

  /** `[StringLength(max, MinimumLength = min)]`. */
  predicate StringLength(s: Option<string>, min: nat, max: nat) {
    s.None? || min <= Utf16Length(s.value) <= max
  }

  /** `[MinLength(min)]` on a string. */
  predicate MinLength(s: Option<string>, min: nat) {
    s.None? || min <= Utf16Length(s.value)
  }

  /** `[Range(1, int.MaxValue)]` on an id. */
  predicate PositiveId(n: Option<int>) {
    n.None? || 1 <= n.value <= MaxInt32
  }

  /** An option of a question to create. */
  datatype OptionRequestDto = OptionRequestDto(text: Option<string>, isCorrect: bool)

  datatype QuestionCreateDto = QuestionCreateDto(text: Option<string>, quizId: int, qtype: QuestionType, options: Option<seq<OptionRequestDto>>)

  /**
   * Every field may be null; a given option list is validated element by
   * element against the option rules.
   */
  datatype QuestionUpdateDto = QuestionUpdateDto(text: Option<string>, qtype: Option<QuestionType>, options: Option<seq<OptionRequestDto>>)

  datatype QuizCreateDto = QuizCreateDto(title: Option<string>, description: Option<string>, categoryId: Option<int>, isPublic: bool, timeLimit: Option<int>)

  datatype AuthDto = AuthDto(username: Option<string>, password: Option<string>)

  datatype UserUpdateDto = UserUpdateDto(userName: Option<string>, password: Option<string>)

  datatype CreateCategoryDto = CreateCategoryDto(name: Option<string>)

  predicate OptionRequestValid(o: OptionRequestDto) {
    Required(o.text) && StringLength(o.text, 1, 500)
  }

  /** Every option of a given list passes the option rules; the optional text and type carry no attribute. */
  predicate QuestionUpdateValid(d: QuestionUpdateDto) {
    d.options.None? || forall i :: 0 <= i < |d.options.value| ==> OptionRequestValid(d.options.value[i])
  }

  /** Text 5 to 500 code units, a positive quiz id, 2 to 10 options, each with 1 to 500 code units of text. */
  predicate QuestionCreateValid(d: QuestionCreateDto) {
    && Required(d.text) && StringLength(d.text, 5, 500)
    && 1 <= d.quizId <= MaxInt32
    && d.options.Some? && 2 <= |d.options.value| <= 10
    && forall i :: 0 <= i < |d.options.value| ==> OptionRequestValid(d.options.value[i])
  }

  /** Title 3 to 50 code units, description at most 5000, a positive category id when given; the time limit is free. */
  predicate QuizCreateValid(d: QuizCreateDto) {
    && Required(d.title) && StringLength(d.title, 3, 50)
    && StringLength(d.description, 0, 5000)
    && PositiveId(d.categoryId)
  }

  /** Username 3 to 50 code units, password at least 6 code units, both required. */
  predicate AuthValid(d: AuthDto) {
    && Required(d.username) && StringLength(d.username, 3, 50)
    && Required(d.password) && MinLength(d.password, 6)
  }

  /** Both fields optional; a given username has 3 to 50 code units, a given password at least 6 code units. */
  predicate UserUpdateValid(d: UserUpdateDto) {
    StringLength(d.userName, 3, 50) && MinLength(d.password, 6)
  }

  /** Name required, 2 to 50 code units. */
  predicate CreateCategoryValid(d: CreateCategoryDto) {
    Required(d.name) && StringLength(d.name, 2, 50)
  }

  /**
   * A valid question has 5 to 500 code units of text, so 3 to 500
   * characters, a positive quiz id and 2 to 10 options, each with 1 to 500
   * code units of text.
   */
  lemma QuestionCreateBounds(d: QuestionCreateDto)
    ensures QuestionCreateValid(d) ==>
      && 5 <= Utf16Length(d.text.value) <= 500 && 3 <= |d.text.value| <= 500
      && 1 <= d.quizId && 2 <= |d.options.value| <= 10
    ensures QuestionCreateValid(d) ==> forall i :: 0 <= i < |d.options.value| ==>
      d.options.value[i].text.Some? && 1 <= Utf16Length(d.options.value[i].text.value) <= 500 && 1 <= |d.options.value[i].text.value|
    ensures d.options == Some([]) || d.options.None? ==> !QuestionCreateValid(d)
  {
  }

  /** A question with the least text and the fewest options that pass. */
  lemma QuestionCreateSmallestAccepted(q: QuestionType)
    ensures QuestionCreateValid(QuestionCreateDto(Some("abcde"), 1, q,
      Some([OptionRequestDto(Some("a"), true), OptionRequestDto(Some("b"), false)])))
    ensures !QuestionCreateValid(QuestionCreateDto(Some("abcd"), 1, q,
      Some([OptionRequestDto(Some("a"), true), OptionRequestDto(Some("b"), false)])))
    ensures !QuestionCreateValid(QuestionCreateDto(Some("abcde"), 0, q,
      Some([OptionRequestDto(Some("a"), true), OptionRequestDto(Some("b"), false)])))
    ensures !QuestionCreateValid(QuestionCreateDto(Some("abcde"), 1, q, Some([OptionRequestDto(Some("a"), true)])))
  {
    var opts := [OptionRequestDto(Some("a"), true), OptionRequestDto(Some("b"), false)];
    assert !IsWhiteSpace('a') && !IsWhiteSpace('b');
    assert !IsNullOrWhiteSpace(Some("abcde")) by { assert "abcde"[0] == 'a'; }
    assert !IsNullOrWhiteSpace(Some("a")) by { assert "a"[0] == 'a'; }
    assert !IsNullOrWhiteSpace(Some("b")) by { assert "b"[0] == 'b'; }
    assert forall i :: 0 <= i < |opts| ==> OptionRequestValid(opts[i]);
  }

  /**
   * The quiz title bounds count code units, not characters: a title of two
   * characters above U+FFFF passes where two ASCII letters fail; description
   * and time limit never fail on their own.
   */
  lemma QuizCreateBounds(d: QuizCreateDto)
    ensures QuizCreateValid(d) ==> 3 <= Utf16Length(d.title.value) <= 50 && 2 <= |d.title.value| <= 50
    ensures QuizCreateValid(d) && d.description.Some? ==> Utf16Length(d.description.value) <= 5000
    ensures QuizCreateValid(d) && d.categoryId.Some? ==> d.categoryId.value >= 1
    ensures QuizCreateValid(d) ==> QuizCreateValid(d.(timeLimit := None)) && QuizCreateValid(d.(description := None))
    ensures d.title == Some("") ==> !QuizCreateValid(d)
    ensures QuizCreateValid(QuizCreateDto(Some("\U{1F600}\U{1F600}"), None, None, false, None))
    ensures !QuizCreateValid(QuizCreateDto(Some("ab"), None, None, false, None))
  {
    var wide := "\U{1F600}\U{1F600}";
    assert wide[0] == '\U{1F600}' && !IsWhiteSpace(wide[0]);
    assert Utf16Length(wide) == 4 by {
      assert wide[1..] == "\U{1F600}";
      assert wide[1..][1..] == "";
    }
  }

  /** Both credentials are held to their bounds in code units; the password has no upper bound. */
  lemma AuthBounds(d: AuthDto, longer: string)
    ensures !AuthValid(AuthDto(Some(""), Some("")))
    ensures AuthValid(d) ==> 3 <= Utf16Length(d.username.value) <= 50 && 6 <= Utf16Length(d.password.value)
    ensures AuthValid(d) ==> 2 <= |d.username.value| <= 50 && 3 <= |d.password.value|
    ensures AuthValid(d) && Required(Some(d.password.value + longer)) ==> AuthValid(d.(password := Some(d.password.value + longer)))
  {
    if AuthValid(d) && Required(Some(d.password.value + longer)) {
      Utf16LengthConcat(d.password.value, longer);
    }
  }

  /** An update with neither field passes; a given field is held to its bounds. */
  lemma UserUpdateBounds(d: UserUpdateDto)
    ensures UserUpdateValid(UserUpdateDto(None, None))
    ensures UserUpdateValid(d) && d.userName.Some? ==> 3 <= Utf16Length(d.userName.value) <= 50 && 2 <= |d.userName.value| <= 50
    ensures UserUpdateValid(d) && d.password.Some? ==> 6 <= Utf16Length(d.password.value) && 3 <= |d.password.value|
    ensures d.password == Some("12345") ==> !UserUpdateValid(d)
  {
  }

  /** A category name passes exactly when present, not blank and 2 to 50 code units long, so 1 to 50 characters. */
  lemma CategoryNameBounds(name: Option<string>)
    ensures CreateCategoryValid(CreateCategoryDto(name)) <==> name.Some? && !IsNullOrWhiteSpace(name) && 2 <= Utf16Length(name.value) <= 50
    ensures CreateCategoryValid(CreateCategoryDto(name)) ==> 1 <= |name.value| <= 50
    ensures name.None? ==> !CreateCategoryValid(CreateCategoryDto(name))
  {
  }
}
