/** Optional values, used for the comma-ok forms of the program
    (`v, ok := x.(string)`, `t, err := strconv.ParseFloat(s, 64)`). */
module Wrappers {

  datatype Option<+T> = None | Some(value: T)
}
