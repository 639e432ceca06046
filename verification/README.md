# LRU cache and number-to-words converter, modelled in Dafny

This project models the two components of a small Python repository.

**LRU cache.** `LruCache` in LRUCache.py is a fixed-capacity least-recently-used cache. It keeps a dictionary from key to node and a doubly linked list of nodes between two sentinels, most recently used first.
- Module `LruCache` (lru_cache.dfy) models the list as a sequence of entries without the sentinels, and the dictionary as a map from key to value.
- The predicate `Valid` ties the two together: keys are distinct, every node's key is in the dictionary with the node's value, every dictionary key has its node, and the size is at most a positive capacity.
- `get`, `put`, `delete` and the private `__update`, `__insertion` and `__replace` are pure functions from a cache to a cache. `__str__` is the listing of (key, value) pairs from front to back.
- Every operation preserves `Valid`.

**Number converter.** `convertString` in Number_to_string.py writes a number below one thousand billion in English words. It peels off the largest scale that fits, renders the quotient with `createStringFromNum`, and recurses on the remainder.
- Module `NumberWords` (number_words.dfy) models the table, the scale list and both functions. Output strings are modelled exactly, including the stray spaces the code emits.
- Module `Numerals` (numerals.dfy) is an independent reference: a splitter of text into words and a reader that folds English number words into a value.
- Module `NumberReading` (number_reading.dfy) proves that the reader gives back every number the converter renders. As a consequence, no two numbers share a rendering.

Module `Wrappers` (wrappers.dfy) holds the `Option` type.

## Model

| member | source | states |
|---|---|---|
| LruCache.New | LRUCache.py:46-61 | A new cache holds no entries: the head links straight to the tail and the dictionary is empty. It satisfies the list/dictionary agreement for any capacity of at least one. |
| LruCache.IndexSize | LRUCache.py:104-115 | In any consistent cache, the dictionary has exactly as many keys as the list has nodes, and never more than the capacity. |
| LruCache.WithoutAt | LRUCache.py:129-132 | Unlinking the node at position i of a list of distinct keys joins its two neighbours and removes nothing else: the result is the list before i followed by the list after i. |
| LruCache.Get | LRUCache.py:63-93 | An absent key gives None and leaves the cache unchanged. A present key gives its stored value and is moved to the front. The dictionary is unchanged, the other nodes keep their relative order, and consistency is preserved. |
| LruCache.GetFront | LRUCache.py:79-81 | Looking up the key already at the front returns its value and moves nothing. |
| LruCache.GetTwice | LRUCache.py:63-93 | Two lookups of the same key in a row give the same value and the same cache as one lookup. |
| LruCache.Update | LRUCache.py:152-169 | The key gets the new value and its node moves to the front. The dictionary keeps its key set, other values are unchanged, the length is unchanged, and the other nodes keep their relative order. |
| LruCache.Insertion | LRUCache.py:171-189 | In a cache with room, a new key's node is linked in front of the whole old list. The dictionary gains exactly that key and its size grows by one. |
| LruCache.Replace | LRUCache.py:137-150 | In a full cache, the last (least recently used) key leaves the dictionary. The new key and value take over that last node in place, so the new key sits at the back. All other nodes, the other values and the size are unchanged. |
| LruCache.Put | LRUCache.py:95-115 | After a put the key holds the value. A present key is updated and moved to the front. A new key is linked at the front when there is room, and otherwise replaces the last node. The size grows by one exactly when a new key meets room. No other key appears or changes value, and the only key that can disappear is the last one, when a new key meets a full cache. |
| LruCache.PutThenGet | LRUCache.py:95-115 | A lookup right after a put returns the value just put. |
| LruCache.ReplacedKeyIsNextVictim | LRUCache.py:146-150 | A new key put into a full cache is evicted by the very next put of another new key, because it was placed at the least recently used end. |
| LruCache.Delete | LRUCache.py:117-135 | An absent key leaves the cache unchanged. A present key is dropped from the dictionary, which shrinks by one, and its node is cut out with the rest of the list in order. No other key or value changes. |
| LruCache.DeleteTwice | LRUCache.py:124-125 | Deleting a key a second time changes nothing. |
| LruCache.DeleteFreesCapacity | LRUCache.py:104-135 | After a delete from a full cache, a new key can be put without evicting anything, and the cache is full again. |
| LruCache.Listing | LRUCache.py:191-204 | Walking from head to tail lists the nodes in list order, most recently used first, as (key, value) pairs. Consistency then makes it list every dictionary key exactly once, each with its value, and nothing else. |
| LruCache.UsageExample | LRUCache.py:208-219 | For any three distinct keys: put all three into a cache of three and delete the second. The listing is then the third key followed by the first. |
| LruCache.EvictionExample | LRUCache.py:63-150 | For any four distinct keys: put three into a cache of three, then look up the first. The listing is first, third, second. A fourth key then evicts the second and takes its place at the back: first, third, fourth. Deleting the third leaves first and fourth, and the third is no longer found. |
| NumberWords.GroupLookupsDefined | Number_to_string.py:15-28 | For a group below a thousand, every lookup succeeds: the hundreds digit is a key, and a remainder that is not a key is above twenty with nonzero units, while its tens and its units are keys. |
| NumberWords.HundredsPart | Number_to_string.py:15-18 | The hundreds text is empty exactly when the group is below one hundred. Otherwise it starts and ends with a space. |
| NumberWords.RemainderPart | Number_to_string.py:20-28 | The remainder text is empty exactly when the remainder is zero. Otherwise it ends with a space. |
| NumberWords.ScalePart | Number_to_string.py:30-31 | The scale word is present exactly when the divisor is not one. |
| NumberWords.CreateStringFromNum | Number_to_string.py:10-33 | A None group renders as the empty string. A nonzero group, or any group with a scale, renders as a non-empty text ending in a space. |
| NumberWords.PickScale | Number_to_string.py:45-54 | The chosen divisor is the first in the scale list whose quotient is nonzero. Every earlier divisor gives quotient zero, and the chosen one is the largest scale not above the number. |
| NumberWords.ConvertString | Number_to_string.py:36-56 | The text is empty exactly for zero. Otherwise it ends with a space. |
| NumberWords.SplitIsExact | Number_to_string.py:45-55 | One step of the conversion splits the number exactly: quotient times divisor plus the remainder passed on is the number. The remainder is below the divisor and below the number, so the recursion ends, and the quotient is below a thousand. |
| NumberWords.ConvertExample | Number_to_string.py:58 | 65732007 renders as three groups in order: 65 with "million", 732 with "thousand", then 7 with no scale word. |
| NumberReading.WordReadsBack | Number_to_string.py:1-6 | Every word of the table is a single word without spaces, and the reader values it at its own key. |
| NumberReading.Keys | Number_to_string.py:36-56 | Every key the whole conversion of a number looks up is in the table. |
| NumberReading.TokensOfGroup | Number_to_string.py:10-33 | Split at spaces, the text of one group is exactly the table words of its keys: hundreds digit and "hundred", then the remainder as one word or as tens and units, then the scale word. |
| NumberReading.TokensOfConvert | Number_to_string.py:36-56 | Split at spaces, the converter's text is exactly the table words of the keys the conversion looks up, in order. |
| NumberReading.FoldKeys | Number_to_string.py:45-55 | The keys of a number, read as English number words, add everything above the last three digits to the total and the last three digits to the open group. |
| NumberReading.KeysExample | Number_to_string.py:58 | The groups of 65732007 look up the keys 60 5 million, then 7 hundred 30 2 thousand, then 7. |
| NumberReading.ReadsBack | Number_to_string.py:36-56 | Split into words and read as English, the text for any number below one thousand billion gives back that number. |
| NumberReading.ConvertInjective | Number_to_string.py:36-56 | Two numbers below one thousand billion have the same text if and only if they are equal. |

On eviction, `__replace` (LRUCache.py:146-150) overwrites the key and value of the last node in place and does not move it, so the new key sits at the least recently used end. `Replace`, `Put`, `ReplacedKeyIsNextVictim` and `EvictionExample` state this.

The comment at LRUCache.py:220 describes the printed state as if the commented-out calls above it had run. With the calls as written, the listing is the third key followed by the first, which is what `UsageExample` states.

## Left out

- Printing: `DoubleLinkList.printF`, the `print` at Number_to_string.py:11, and the module-level demo prints. They produce console output only.
- LruCache.Listing: states the sequence of (key, value) pairs from front to back, not the exact bracketed text that `__str__` builds. The formatting of keys and values through Python's `str` is not modelled.
- Object identity and the sentinels' `-1` placeholders. The sentinels are implicit in the sequence. The test `self.head.next == node` is modelled as "the key is at the front", which is equivalent while keys are distinct.
- Pointer-level steps of the linked list. Each operation is modelled by its effect on the whole sequence.
- The O(1) cost of the operations, and hashing. Keys are any type with equality.
- Capacities below one. `New` and `Valid` require a capacity of at least one, since with capacity zero `__replace` would pop a key the dictionary does not have.
- Converter inputs that are negative or at least one thousand billion. `ConvertString` requires `n < 1000000000000`. In that range every table lookup succeeds. Above it the Python code still works for some numbers (1500000000000 gives " fifteen hundred billion ") and fails on a missing key for others (2100000000000 looks up 21).
- NumberWords.CreateStringFromNum: requires a group below one thousand. This follows from the bound on `convertString`, which only passes such groups. For larger groups the Python code works only some of the time: 1500 gives " fifteen hundred ", because 15 is a key of the table, while 2100 fails on the missing key 21.
- NumberWords.ConvertExample: states the example as the concatenation of its three group renderings, not as one literal string, because the literal form is too costly for the verifier. `NumberReading.KeysExample` pins down the words of each group.
- ChainOfResponsibility.py: its only behaviour is console output.
