/**
 * The fixed word lists of the review analyzer (app/analyzer.py:9-21): a Russian
 * stop-word list and the two sentiment lexicons. They are read-only constants.
 *
 * The sentiment lists are written in the source as one string split on spaces,
 * so the entries "не работает", "не советую" and "не подошел" become the single
 * words "не", "работает", "советую", "подошел" (and "не" occurs only once).
 */
module Lexicon {

  /** RU_STOP: words the tokenizer discards. */
  const StopWords: set<string> := {
    "и", "в", "во", "не", "что", "он", "на", "я", "с", "со", "как", "а", "то", "все", "она",
    "так", "его", "но", "да", "ты", "к", "у", "же", "вы", "за", "бы", "по", "только", "ее",
    "мне", "было", "вот", "от", "меня", "еще", "нет", "о", "из", "ему", "теперь", "когда",
    "даже", "ну", "вдруг", "ли", "если", "уже", "или", "ни", "быть", "был", "него", "до",
    "вас", "нибудь", "опять", "уж", "вам", "ведь", "там", "потом", "себя", "ничего", "ей",
    "может", "они", "тут", "где", "есть", "надо", "ней", "для", "мы", "тебя", "их", "чем",
    "была", "сам", "чтоб", "без", "будто", "чего", "раз", "тоже", "себе", "под", "будет", "ж",
    "тогда", "кто", "этот", "того", "потому", "этого", "какой", "совсем", "ним", "здесь",
    "этом", "один", "почти", "мой", "тем", "чтобы", "нее", "сейчас", "были", "куда", "зачем",
    "всех", "никогда", "можно", "при", "наконец", "два", "об", "другой"
  }

  /** NEG_WORDS: a review text is negative when one of its tokens is one of these. */
  const NegWords: set<string> := {
    "плох", "ужас", "отврат", "не", "работает", "слом", "сломал", "сломалась", "брак",
    "возврат", "советую", "разочар", "подошел", "дешев", "хлипк", "воняет", "запах"
  }

  /** POS_WORDS: a review text is positive when one of its tokens is one of these. */
  const PosWords: set<string> := {
    "отлич", "супер", "класс", "понравилось", "рекомендую", "качеств", "хороший", "красив",
    "удобн"
  }
}
