# python-newsfeed template filters in Dafny

The newsfeed is a small forum-style web backend: users sign up, log in, post
links, comment and upvote. Its only self-contained logic is a pair of string
helpers used by the templates, in `app/utils/filters.py`:

- `format_url(url)` turns a link into a short display host. It deletes every
  `http://`, then every `https://`, then every `www.`. From the result it keeps
  the text before the first `/`, and from that the text before the first `?`.
  This is a crude rewrite, not a URL parser.
- `format_plural(amount, word)` appends `s` to `word` unless `amount == 1`.

The model is two modules of pure functions and lemmas:

- `pystr.dfy`, module `PyStrings`: the Python `str` operations that
  `format_url` is built from. `ReplaceAll` is `str.replace`: it scans from the
  left and replaces occurrences without overlap. `Split` is `str.split` with a
  separator. `Join` is `str.join`. `Contains` is the substring test `in`. The
  lemmas prove what these operations promise: `split` never returns an empty
  list, `sep.join(s.split(sep)) == s`, `s.replace(p, r) == r.join(s.split(p))`,
  `s.split(c)[0]` is the text before the first `c`, and deleting a pattern
  changes the string exactly when the pattern occurs in it.
- `filters.dfy`, module `Filters`: `FormatUrl` and `FormatPlural`, written as
  the same chain of calls as the source, with their properties.

Strings are `seq<char>`. `amount` is an `int`.

`FormatUrl` is deliberately not claimed to be idempotent. Deleting `www.` can
bring a new `www.` together (`wwwwww..` becomes `www.`, which becomes the empty
string). `FormatUrlNotIdempotent` proves this.

## Model

| member | source | states |
|---|---|---|
| `PyStrings.ReplaceAll` | app/utils/filters.py:9 | `str.replace` with an empty replacement never makes the string longer |
| `PyStrings.Split` | app/utils/filters.py:9 | `str.split(sep)` always returns at least one piece, so `split(...)[0]` cannot fail |
| `PyStrings.ReplaceAllAbsent` | app/utils/filters.py:9 | `replace` returns the string unchanged when the pattern does not occur in it |
| `PyStrings.RemoveAllShrinks` | app/utils/filters.py:9 | deleting a pattern that occurs makes the string strictly shorter |
| `PyStrings.RemoveAllUnchangedIff` | app/utils/filters.py:9 | deleting a pattern leaves the string unchanged if and only if the pattern does not occur in it |
| `PyStrings.ReplaceAllSkip` | app/utils/filters.py:9 | `replace` copies a leading part of the string in which no occurrence starts (the left-to-right scan) |
| `PyStrings.ReplaceAllLeading` | app/utils/filters.py:9 | `replace` rewrites a leading occurrence and carries on after it, without rescanning the replacement |
| `PyStrings.JoinSplit` | app/utils/filters.py:9 | joining the pieces of `s.split(sep)` with `sep` gives back `s` |
| `PyStrings.ReplaceAllIsJoinSplit` | app/utils/filters.py:9 | `s.replace(p, r) == r.join(s.split(p))`, which ties the two scans together |
| `PyStrings.SplitFirst` | app/utils/filters.py:9 | `s.split(sep)[0]` is a prefix of `s`, no occurrence of `sep` starts inside it, and it is followed by `sep` or is all of `s` when `sep` is absent |
| `PyStrings.SplitFirstChar` | app/utils/filters.py:9 | for a one-character separator `c`, `s.split(c)[0]` is a prefix of `s` without `c`, it is all of `s` or followed by `c`, and it is all of `s` when `c` is absent |
| `Filters.StripPrefixes` | app/utils/filters.py:9 | the three `replace` calls in source order (`http://`, then `https://`, then `www.`, each deleted); the result is never longer than the URL |
| `Filters.StripPrefixesUnchangedIff` | app/utils/filters.py:9 | the three deletions leave the URL unchanged if and only if it holds none of `http://`, `https://`, `www.` |
| `Filters.FormatUrl` | app/utils/filters.py:8-9 | the result holds no `/` and no `?`, is a prefix of the URL after the three deletions, and is never longer than the URL |
| `Filters.FormatUrlIsFirstSegment` | app/utils/filters.py:9 | a string is the result if and only if it is the longest prefix of the stripped URL without `/` or `?` |
| `Filters.FormatUrlUnchanged` | app/utils/filters.py:9 | a URL with none of `http://`, `https://`, `www.`, `/`, `?` is returned unchanged |
| `Filters.StripPrefixesDropsLeading` | app/utils/filters.py:9 | the three deletions remove a leading `http://`, `https://` or `www.` and leave the rest to be processed as if it stood alone |
| `Filters.StripPrefixesKeeps` | app/utils/filters.py:9 | text with no `h` and no `w` is left unchanged by the three deletions |
| `Filters.FormatUrlDropsLeading` | app/utils/filters.py:9 | a leading `http://`, `https://` or `www.` does not change the result |
| `Filters.FormatUrlOfBareHost` | app/utils/filters.py:9 | when the URL holds none of `http://`, `https://`, `www.`, a host without `/` or `?`, followed by nothing or by text starting with `/` or `?`, is exactly the result |
| `Filters.FormatUrlOfPlainHost` | app/utils/filters.py:9 | a host without `/` or `?`, followed by nothing or by text starting with `/` or `?`, the whole free of `h` and `w`, is exactly the result |
| `Filters.FormatUrlOfSchemeWwwHost` | app/utils/filters.py:9 | `http://` or `https://` or `www.`, then `www.`, then such a plain host and what follows it, gives the host |
| `Filters.FormatUrlExamplePath` | app/utils/filters.py:11 | `format_url('http://google.com/test/') == 'google.com'` |
| `Filters.FormatUrlExampleQuery` | app/utils/filters.py:12 | `format_url('https://www.google.com?q=test') == 'google.com'` |
| `Filters.StripPrefixesCanJoin` | app/utils/filters.py:9 | deleting `www.` from `wwwwww..` leaves `www.`: a deletion can create a new occurrence |
| `Filters.FormatUrlNotIdempotent` | app/utils/filters.py:8-9 | `format_url('wwwwww..') == 'www.'` but `format_url('www.') == ''`, so `format_url` is not idempotent |
| `Filters.FormatPlural` | app/utils/filters.py:14-17 | the result starts with `word`, is one character longer exactly when `amount != 1`, and that extra character is `s` |
| `Filters.FormatPluralCases` | app/utils/filters.py:14-17 | the word comes back bare if and only if `amount == 1`; every other amount, zero and negative ones included, gives `word + 's'` |
| `Filters.FormatPluralExamples` | app/utils/filters.py:19-20 | `format_plural(2, 'cat') == 'cats'` and `format_plural(1, 'dog') == 'dog'`, and amounts 0 and -1 also give `cats` |

## Left out

- `format_date` (app/utils/filters.py:2-3): a one-line call of `datetime.strftime`, a library whose behaviour is not part of this model.
- The module-level `print(format_date(datetime.now()))` (app/utils/filters.py:5-6): output at import time that reads the clock.
- app/routes/api.py: Flask request handlers over the session store and the database (signup, login, logout and the rest). They only wrap framework and ORM calls, and `User.verify_password` from `app.models` is not part of this model.
- `format_plural` with an `amount` that is not an integer (a float equal to `1.0`, say): `amount` is an `int` here.
- `ReplaceAll` and `Split` with an empty pattern or separator: `format_url` never uses one, and Python treats it specially (`replace` inserts between characters, `split` raises `ValueError`). Both functions require a non-empty pattern.
- Python strings are sequences of Unicode code points, and Dafny's `char` is a Unicode scalar value: the lone surrogate code points a Python `str` can hold have no `char`. No encoding or normalisation is modelled.
