/** The combining marks the graphics protocol uses to number placeholder rows and columns. */
module Diacritics {

  /** A combining diacritic from the protocol's table of row/column/id marks. */
  type Mark = c: nat | 0x300 <= c < 0x11_0000 witness 0x300

  /** The diacritic for index `k`; indices past the end of the table use entry 0. */
  function Diacritic(k: nat): (r: Mark)
  {
    if k >= 297 then 0x305
    else if k < 148 then
      if k < 74 then
        if k < 37 then
          if k < 18 then
            if k < 9 then
              if k < 4 then
                if k < 2 then
                  if k == 0 then 0x305 else 0x30D
                else
                  if k == 2 then 0x30E else 0x310
              else
                if k < 6 then
                  if k == 4 then 0x312 else 0x33D
                else
                  if k == 6 then 0x33E else if k == 7 then 0x33F else 0x346
            else
              if k < 13 then
                if k < 11 then
                  if k == 9 then 0x34A else 0x34B
                else
                  if k == 11 then 0x34C else 0x350
              else
                if k < 15 then
                  if k == 13 then 0x351 else 0x352
                else
                  if k == 15 then 0x357 else if k == 16 then 0x35B else 0x363
          else
            if k < 27 then
              if k < 22 then
                if k < 20 then
                  if k == 18 then 0x364 else 0x365
                else
                  if k == 20 then 0x366 else 0x367
              else
                if k < 24 then
                  if k == 22 then 0x368 else 0x369
                else
                  if k == 24 then 0x36A else if k == 25 then 0x36B else 0x36C
            else
              if k < 32 then
                if k < 29 then
                  if k == 27 then 0x36D else 0x36E
                else
                  if k == 29 then 0x36F else if k == 30 then 0x483 else 0x484
              else
                if k < 34 then
                  if k == 32 then 0x485 else 0x486
                else
                  if k == 34 then 0x487 else if k == 35 then 0x592 else 0x593
        else
          if k < 55 then
            if k < 46 then
              if k < 41 then
                if k < 39 then
                  if k == 37 then 0x594 else 0x595
                else
                  if k == 39 then 0x597 else 0x598
              else
                if k < 43 then
                  if k == 41 then 0x599 else 0x59C
                else
                  if k == 43 then 0x59D else if k == 44 then 0x59E else 0x59F
            else
              if k < 50 then
                if k < 48 then
                  if k == 46 then 0x5A0 else 0x5A1
                else
                  if k == 48 then 0x5A8 else 0x5A9
              else
                if k < 52 then
                  if k == 50 then 0x5AB else 0x5AC
                else
                  if k == 52 then 0x5AF else if k == 53 then 0x5C4 else 0x610
          else
            if k < 64 then
              if k < 59 then
                if k < 57 then
                  if k == 55 then 0x611 else 0x612
                else
                  if k == 57 then 0x613 else 0x614
              else
                if k < 61 then
                  if k == 59 then 0x615 else 0x616
                else
                  if k == 61 then 0x617 else if k == 62 then 0x657 else 0x658
            else
              if k < 69 then
                if k < 66 then
                  if k == 64 then 0x659 else 0x65A
                else
                  if k == 66 then 0x65B else if k == 67 then 0x65D else 0x65E
              else
                if k < 71 then
                  if k == 69 then 0x6D6 else 0x6D7
                else
                  if k == 71 then 0x6D8 else if k == 72 then 0x6D9 else 0x6DA
      else
        if k < 111 then
          if k < 92 then
            if k < 83 then
              if k < 78 then
                if k < 76 then
                  if k == 74 then 0x6DB else 0x6DC
                else
                  if k == 76 then 0x6DF else 0x6E0
              else
                if k < 80 then
                  if k == 78 then 0x6E1 else 0x6E2
                else
                  if k == 80 then 0x6E4 else if k == 81 then 0x6E7 else 0x6E8
            else
              if k < 87 then
                if k < 85 then
                  if k == 83 then 0x6EB else 0x6EC
                else
                  if k == 85 then 0x730 else 0x732
              else
                if k < 89 then
                  if k == 87 then 0x733 else 0x735
                else
                  if k == 89 then 0x736 else if k == 90 then 0x73A else 0x73D
          else
            if k < 101 then
              if k < 96 then
                if k < 94 then
                  if k == 92 then 0x73F else 0x740
                else
                  if k == 94 then 0x741 else 0x743
              else
                if k < 98 then
                  if k == 96 then 0x745 else 0x747
                else
                  if k == 98 then 0x749 else if k == 99 then 0x74A else 0x7EB
            else
              if k < 106 then
                if k < 103 then
                  if k == 101 then 0x7EC else 0x7ED
                else
                  if k == 103 then 0x7EE else if k == 104 then 0x7EF else 0x7F0
              else
                if k < 108 then
                  if k == 106 then 0x7F1 else 0x7F3
                else
                  if k == 108 then 0x816 else if k == 109 then 0x817 else 0x818
        else
          if k < 129 then
            if k < 120 then
              if k < 115 then
                if k < 113 then
                  if k == 111 then 0x819 else 0x81B
                else
                  if k == 113 then 0x81C else 0x81D
              else
                if k < 117 then
                  if k == 115 then 0x81E else 0x81F
                else
                  if k == 117 then 0x820 else if k == 118 then 0x821 else 0x822
            else
              if k < 124 then
                if k < 122 then
                  if k == 120 then 0x823 else 0x825
                else
                  if k == 122 then 0x826 else 0x827
              else
                if k < 126 then
                  if k == 124 then 0x829 else 0x82A
                else
                  if k == 126 then 0x82B else if k == 127 then 0x82C else 0x82D
          else
            if k < 138 then
              if k < 133 then
                if k < 131 then
                  if k == 129 then 0x951 else 0x953
                else
                  if k == 131 then 0x954 else 0xF82
              else
                if k < 135 then
                  if k == 133 then 0xF83 else 0xF86
                else
                  if k == 135 then 0xF87 else if k == 136 then 0x135D else 0x135E
            else
              if k < 143 then
                if k < 140 then
                  if k == 138 then 0x135F else 0x17DD
                else
                  if k == 140 then 0x193A else if k == 141 then 0x1A17 else 0x1A75
              else
                if k < 145 then
                  if k == 143 then 0x1A76 else 0x1A77
                else
                  if k == 145 then 0x1A78 else if k == 146 then 0x1A79 else 0x1A7A
    else
      if k < 222 then
        if k < 185 then
          if k < 166 then
            if k < 157 then
              if k < 152 then
                if k < 150 then
                  if k == 148 then 0x1A7B else 0x1A7C
                else
                  if k == 150 then 0x1B6B else 0x1B6D
              else
                if k < 154 then
                  if k == 152 then 0x1B6E else 0x1B6F
                else
                  if k == 154 then 0x1B70 else if k == 155 then 0x1B71 else 0x1B72
            else
              if k < 161 then
                if k < 159 then
                  if k == 157 then 0x1B73 else 0x1CD0
                else
                  if k == 159 then 0x1CD1 else 0x1CD2
              else
                if k < 163 then
                  if k == 161 then 0x1CDA else 0x1CDB
                else
                  if k == 163 then 0x1CE0 else if k == 164 then 0x1DC0 else 0x1DC1
          else
            if k < 175 then
              if k < 170 then
                if k < 168 then
                  if k == 166 then 0x1DC3 else 0x1DC4
                else
                  if k == 168 then 0x1DC5 else 0x1DC6
              else
                if k < 172 then
                  if k == 170 then 0x1DC7 else 0x1DC8
                else
                  if k == 172 then 0x1DC9 else if k == 173 then 0x1DCB else 0x1DCC
            else
              if k < 180 then
                if k < 177 then
                  if k == 175 then 0x1DD1 else 0x1DD2
                else
                  if k == 177 then 0x1DD3 else if k == 178 then 0x1DD4 else 0x1DD5
              else
                if k < 182 then
                  if k == 180 then 0x1DD6 else 0x1DD7
                else
                  if k == 182 then 0x1DD8 else if k == 183 then 0x1DD9 else 0x1DDA
        else
          if k < 203 then
            if k < 194 then
              if k < 189 then
                if k < 187 then
                  if k == 185 then 0x1DDB else 0x1DDC
                else
                  if k == 187 then 0x1DDD else 0x1DDE
              else
                if k < 191 then
                  if k == 189 then 0x1DDF else 0x1DE0
                else
                  if k == 191 then 0x1DE1 else if k == 192 then 0x1DE2 else 0x1DE3
            else
              if k < 198 then
                if k < 196 then
                  if k == 194 then 0x1DE4 else 0x1DE5
                else
                  if k == 196 then 0x1DE6 else 0x1DFE
              else
                if k < 200 then
                  if k == 198 then 0x20D0 else 0x20D1
                else
                  if k == 200 then 0x20D4 else if k == 201 then 0x20D5 else 0x20D6
          else
            if k < 212 then
              if k < 207 then
                if k < 205 then
                  if k == 203 then 0x20D7 else 0x20DB
                else
                  if k == 205 then 0x20DC else 0x20E1
              else
                if k < 209 then
                  if k == 207 then 0x20E7 else 0x20E9
                else
                  if k == 209 then 0x20F0 else if k == 210 then 0x2CEF else 0x2CF0
            else
              if k < 217 then
                if k < 214 then
                  if k == 212 then 0x2CF1 else 0x2DE0
                else
                  if k == 214 then 0x2DE1 else if k == 215 then 0x2DE2 else 0x2DE3
              else
                if k < 219 then
                  if k == 217 then 0x2DE4 else 0x2DE5
                else
                  if k == 219 then 0x2DE6 else if k == 220 then 0x2DE7 else 0x2DE8
      else
        if k < 259 then
          if k < 240 then
            if k < 231 then
              if k < 226 then
                if k < 224 then
                  if k == 222 then 0x2DE9 else 0x2DEA
                else
                  if k == 224 then 0x2DEB else 0x2DEC
              else
                if k < 228 then
                  if k == 226 then 0x2DED else 0x2DEE
                else
                  if k == 228 then 0x2DEF else if k == 229 then 0x2DF0 else 0x2DF1
            else
              if k < 235 then
                if k < 233 then
                  if k == 231 then 0x2DF2 else 0x2DF3
                else
                  if k == 233 then 0x2DF4 else 0x2DF5
              else
                if k < 237 then
                  if k == 235 then 0x2DF6 else 0x2DF7
                else
                  if k == 237 then 0x2DF8 else if k == 238 then 0x2DF9 else 0x2DFA
          else
            if k < 249 then
              if k < 244 then
                if k < 242 then
                  if k == 240 then 0x2DFB else 0x2DFC
                else
                  if k == 242 then 0x2DFD else 0x2DFE
              else
                if k < 246 then
                  if k == 244 then 0x2DFF else 0xA66F
                else
                  if k == 246 then 0xA67C else if k == 247 then 0xA67D else 0xA6F0
            else
              if k < 254 then
                if k < 251 then
                  if k == 249 then 0xA6F1 else 0xA8E0
                else
                  if k == 251 then 0xA8E1 else if k == 252 then 0xA8E2 else 0xA8E3
              else
                if k < 256 then
                  if k == 254 then 0xA8E4 else 0xA8E5
                else
                  if k == 256 then 0xA8E6 else if k == 257 then 0xA8E7 else 0xA8E8
        else
          if k < 278 then
            if k < 268 then
              if k < 263 then
                if k < 261 then
                  if k == 259 then 0xA8E9 else 0xA8EA
                else
                  if k == 261 then 0xA8EB else 0xA8EC
              else
                if k < 265 then
                  if k == 263 then 0xA8ED else 0xA8EE
                else
                  if k == 265 then 0xA8EF else if k == 266 then 0xA8F0 else 0xA8F1
            else
              if k < 273 then
                if k < 270 then
                  if k == 268 then 0xAAB0 else 0xAAB2
                else
                  if k == 270 then 0xAAB3 else if k == 271 then 0xAAB7 else 0xAAB8
              else
                if k < 275 then
                  if k == 273 then 0xAABE else 0xAABF
                else
                  if k == 275 then 0xAAC1 else if k == 276 then 0xFE20 else 0xFE21
          else
            if k < 287 then
              if k < 282 then
                if k < 280 then
                  if k == 278 then 0xFE22 else 0xFE23
                else
                  if k == 280 then 0xFE24 else 0xFE25
              else
                if k < 284 then
                  if k == 282 then 0xFE26 else 0x10A0F
                else
                  if k == 284 then 0x10A38 else if k == 285 then 0x1D185 else 0x1D186
            else
              if k < 292 then
                if k < 289 then
                  if k == 287 then 0x1D187 else 0x1D188
                else
                  if k == 289 then 0x1D189 else if k == 290 then 0x1D1AA else 0x1D1AB
              else
                if k < 294 then
                  if k == 292 then 0x1D1AC else 0x1D1AD
                else
                  if k == 294 then 0x1D242 else if k == 295 then 0x1D243 else 0x1D244
  }
}
