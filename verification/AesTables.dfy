/** The constant tables themselves, and that they have every fact the cipher relies on. */
module AesTables {
  import opened AesWord
  import opened AesField
  import opened AesCipher

  // ---------------------------------------------------------------- the constants

  /** Entry i of a row of sixteen. */
  function At(i: bv8, v0: byte, v1: byte, v2: byte, v3: byte, v4: byte, v5: byte, v6: byte, v7: byte,
    v8: byte, v9: byte, v10: byte, v11: byte, v12: byte, v13: byte, v14: byte, v15: byte): byte
  {
    if i < 8 then
      if i < 4 then
        if i < 2 then (if i < 1 then v0 else v1) else (if i < 3 then v2 else v3)
      else
        if i < 6 then (if i < 5 then v4 else v5) else (if i < 7 then v6 else v7)
    else
      if i < 12 then
        if i < 10 then (if i < 9 then v8 else v9) else (if i < 11 then v10 else v11)
      else
        if i < 14 then (if i < 13 then v12 else v13) else (if i < 15 then v14 else v15)
  }

  function AtWord(i: bv8, v0: bv32, v1: bv32, v2: bv32, v3: bv32, v4: bv32, v5: bv32, v6: bv32, v7: bv32,
    v8: bv32, v9: bv32, v10: bv32, v11: bv32, v12: bv32, v13: bv32, v14: bv32, v15: bv32): bv32
  {
    if i < 8 then
      if i < 4 then
        if i < 2 then (if i < 1 then v0 else v1) else (if i < 3 then v2 else v3)
      else
        if i < 6 then (if i < 5 then v4 else v5) else (if i < 7 then v6 else v7)
    else
      if i < 12 then
        if i < 10 then (if i < 9 then v8 else v9) else (if i < 11 then v10 else v11)
      else
        if i < 14 then (if i < 13 then v12 else v13) else (if i < 15 then v14 else v15)
  }

  /** Powers of the generator 3 of the field of section 4.2 of FIPS 197. */
  function Ptab(b: byte): byte {
    if b < 0x80 then
      if b < 0x40 then
        if b < 0x20 then
          if b < 0x10 then
            if b < 0x08 then
              if b < 0x04 then
                if b < 0x02 then (if b < 0x01 then 1 else 3) else (if b < 0x03 then 5 else 15)
              else
                if b < 0x06 then (if b < 0x05 then 17 else 51) else (if b < 0x07 then 85 else 255)
            else
              if b < 0x0c then
                if b < 0x0a then (if b < 0x09 then 26 else 46) else (if b < 0x0b then 114 else 150)
              else
                if b < 0x0e then (if b < 0x0d then 161 else 248) else (if b < 0x0f then 19 else 53)
          else
            if b < 0x18 then
              if b < 0x14 then
                if b < 0x12 then (if b < 0x11 then 95 else 225) else (if b < 0x13 then 56 else 72)
              else
                if b < 0x16 then (if b < 0x15 then 216 else 115) else (if b < 0x17 then 149 else 164)
            else
              if b < 0x1c then
                if b < 0x1a then (if b < 0x19 then 247 else 2) else (if b < 0x1b then 6 else 10)
              else
                if b < 0x1e then (if b < 0x1d then 30 else 34) else (if b < 0x1f then 102 else 170)
        else
          if b < 0x30 then
            if b < 0x28 then
              if b < 0x24 then
                if b < 0x22 then (if b < 0x21 then 229 else 52) else (if b < 0x23 then 92 else 228)
              else
                if b < 0x26 then (if b < 0x25 then 55 else 89) else (if b < 0x27 then 235 else 38)
            else
              if b < 0x2c then
                if b < 0x2a then (if b < 0x29 then 106 else 190) else (if b < 0x2b then 217 else 112)
              else
                if b < 0x2e then (if b < 0x2d then 144 else 171) else (if b < 0x2f then 230 else 49)
          else
            if b < 0x38 then
              if b < 0x34 then
                if b < 0x32 then (if b < 0x31 then 83 else 245) else (if b < 0x33 then 4 else 12)
              else
                if b < 0x36 then (if b < 0x35 then 20 else 60) else (if b < 0x37 then 68 else 204)
            else
              if b < 0x3c then
                if b < 0x3a then (if b < 0x39 then 79 else 209) else (if b < 0x3b then 104 else 184)
              else
                if b < 0x3e then (if b < 0x3d then 211 else 110) else (if b < 0x3f then 178 else 205)
      else
        if b < 0x60 then
          if b < 0x50 then
            if b < 0x48 then
              if b < 0x44 then
                if b < 0x42 then (if b < 0x41 then 76 else 212) else (if b < 0x43 then 103 else 169)
              else
                if b < 0x46 then (if b < 0x45 then 224 else 59) else (if b < 0x47 then 77 else 215)
            else
              if b < 0x4c then
                if b < 0x4a then (if b < 0x49 then 98 else 166) else (if b < 0x4b then 241 else 8)
              else
                if b < 0x4e then (if b < 0x4d then 24 else 40) else (if b < 0x4f then 120 else 136)
          else
            if b < 0x58 then
              if b < 0x54 then
                if b < 0x52 then (if b < 0x51 then 131 else 158) else (if b < 0x53 then 185 else 208)
              else
                if b < 0x56 then (if b < 0x55 then 107 else 189) else (if b < 0x57 then 220 else 127)
            else
              if b < 0x5c then
                if b < 0x5a then (if b < 0x59 then 129 else 152) else (if b < 0x5b then 179 else 206)
              else
                if b < 0x5e then (if b < 0x5d then 73 else 219) else (if b < 0x5f then 118 else 154)
        else
          if b < 0x70 then
            if b < 0x68 then
              if b < 0x64 then
                if b < 0x62 then (if b < 0x61 then 181 else 196) else (if b < 0x63 then 87 else 249)
              else
                if b < 0x66 then (if b < 0x65 then 16 else 48) else (if b < 0x67 then 80 else 240)
            else
              if b < 0x6c then
                if b < 0x6a then (if b < 0x69 then 11 else 29) else (if b < 0x6b then 39 else 105)
              else
                if b < 0x6e then (if b < 0x6d then 187 else 214) else (if b < 0x6f then 97 else 163)
          else
            if b < 0x78 then
              if b < 0x74 then
                if b < 0x72 then (if b < 0x71 then 254 else 25) else (if b < 0x73 then 43 else 125)
              else
                if b < 0x76 then (if b < 0x75 then 135 else 146) else (if b < 0x77 then 173 else 236)
            else
              if b < 0x7c then
                if b < 0x7a then (if b < 0x79 then 47 else 113) else (if b < 0x7b then 147 else 174)
              else
                if b < 0x7e then (if b < 0x7d then 233 else 32) else (if b < 0x7f then 96 else 160)
    else
      if b < 0xc0 then
        if b < 0xa0 then
          if b < 0x90 then
            if b < 0x88 then
              if b < 0x84 then
                if b < 0x82 then (if b < 0x81 then 251 else 22) else (if b < 0x83 then 58 else 78)
              else
                if b < 0x86 then (if b < 0x85 then 210 else 109) else (if b < 0x87 then 183 else 194)
            else
              if b < 0x8c then
                if b < 0x8a then (if b < 0x89 then 93 else 231) else (if b < 0x8b then 50 else 86)
              else
                if b < 0x8e then (if b < 0x8d then 250 else 21) else (if b < 0x8f then 63 else 65)
          else
            if b < 0x98 then
              if b < 0x94 then
                if b < 0x92 then (if b < 0x91 then 195 else 94) else (if b < 0x93 then 226 else 61)
              else
                if b < 0x96 then (if b < 0x95 then 71 else 201) else (if b < 0x97 then 64 else 192)
            else
              if b < 0x9c then
                if b < 0x9a then (if b < 0x99 then 91 else 237) else (if b < 0x9b then 44 else 116)
              else
                if b < 0x9e then (if b < 0x9d then 156 else 191) else (if b < 0x9f then 218 else 117)
        else
          if b < 0xb0 then
            if b < 0xa8 then
              if b < 0xa4 then
                if b < 0xa2 then (if b < 0xa1 then 159 else 186) else (if b < 0xa3 then 213 else 100)
              else
                if b < 0xa6 then (if b < 0xa5 then 172 else 239) else (if b < 0xa7 then 42 else 126)
            else
              if b < 0xac then
                if b < 0xaa then (if b < 0xa9 then 130 else 157) else (if b < 0xab then 188 else 223)
              else
                if b < 0xae then (if b < 0xad then 122 else 142) else (if b < 0xaf then 137 else 128)
          else
            if b < 0xb8 then
              if b < 0xb4 then
                if b < 0xb2 then (if b < 0xb1 then 155 else 182) else (if b < 0xb3 then 193 else 88)
              else
                if b < 0xb6 then (if b < 0xb5 then 232 else 35) else (if b < 0xb7 then 101 else 175)
            else
              if b < 0xbc then
                if b < 0xba then (if b < 0xb9 then 234 else 37) else (if b < 0xbb then 111 else 177)
              else
                if b < 0xbe then (if b < 0xbd then 200 else 67) else (if b < 0xbf then 197 else 84)
      else
        if b < 0xe0 then
          if b < 0xd0 then
            if b < 0xc8 then
              if b < 0xc4 then
                if b < 0xc2 then (if b < 0xc1 then 252 else 31) else (if b < 0xc3 then 33 else 99)
              else
                if b < 0xc6 then (if b < 0xc5 then 165 else 244) else (if b < 0xc7 then 7 else 9)
            else
              if b < 0xcc then
                if b < 0xca then (if b < 0xc9 then 27 else 45) else (if b < 0xcb then 119 else 153)
              else
                if b < 0xce then (if b < 0xcd then 176 else 203) else (if b < 0xcf then 70 else 202)
          else
            if b < 0xd8 then
              if b < 0xd4 then
                if b < 0xd2 then (if b < 0xd1 then 69 else 207) else (if b < 0xd3 then 74 else 222)
              else
                if b < 0xd6 then (if b < 0xd5 then 121 else 139) else (if b < 0xd7 then 134 else 145)
            else
              if b < 0xdc then
                if b < 0xda then (if b < 0xd9 then 168 else 227) else (if b < 0xdb then 62 else 66)
              else
                if b < 0xde then (if b < 0xdd then 198 else 81) else (if b < 0xdf then 243 else 14)
        else
          if b < 0xf0 then
            if b < 0xe8 then
              if b < 0xe4 then
                if b < 0xe2 then (if b < 0xe1 then 18 else 54) else (if b < 0xe3 then 90 else 238)
              else
                if b < 0xe6 then (if b < 0xe5 then 41 else 123) else (if b < 0xe7 then 141 else 140)
            else
              if b < 0xec then
                if b < 0xea then (if b < 0xe9 then 143 else 138) else (if b < 0xeb then 133 else 148)
              else
                if b < 0xee then (if b < 0xed then 167 else 242) else (if b < 0xef then 13 else 23)
          else
            if b < 0xf8 then
              if b < 0xf4 then
                if b < 0xf2 then (if b < 0xf1 then 57 else 75) else (if b < 0xf3 then 221 else 124)
              else
                if b < 0xf6 then (if b < 0xf5 then 132 else 151) else (if b < 0xf7 then 162 else 253)
            else
              if b < 0xfc then
                if b < 0xfa then (if b < 0xf9 then 28 else 36) else (if b < 0xfb then 108 else 180)
              else
                if b < 0xfe then (if b < 0xfd then 199 else 82) else (if b < 0xff then 246 else 1)
  }

  /** Logarithms to the base 3. */
  function Ltab(b: byte): byte {
    if b < 0x80 then
      if b < 0x40 then
        if b < 0x20 then
          if b < 0x10 then
            if b < 0x08 then
              if b < 0x04 then
                if b < 0x02 then (if b < 0x01 then 0 else 255) else (if b < 0x03 then 25 else 1)
              else
                if b < 0x06 then (if b < 0x05 then 50 else 2) else (if b < 0x07 then 26 else 198)
            else
              if b < 0x0c then
                if b < 0x0a then (if b < 0x09 then 75 else 199) else (if b < 0x0b then 27 else 104)
              else
                if b < 0x0e then (if b < 0x0d then 51 else 238) else (if b < 0x0f then 223 else 3)
          else
            if b < 0x18 then
              if b < 0x14 then
                if b < 0x12 then (if b < 0x11 then 100 else 4) else (if b < 0x13 then 224 else 14)
              else
                if b < 0x16 then (if b < 0x15 then 52 else 141) else (if b < 0x17 then 129 else 239)
            else
              if b < 0x1c then
                if b < 0x1a then (if b < 0x19 then 76 else 113) else (if b < 0x1b then 8 else 200)
              else
                if b < 0x1e then (if b < 0x1d then 248 else 105) else (if b < 0x1f then 28 else 193)
        else
          if b < 0x30 then
            if b < 0x28 then
              if b < 0x24 then
                if b < 0x22 then (if b < 0x21 then 125 else 194) else (if b < 0x23 then 29 else 181)
              else
                if b < 0x26 then (if b < 0x25 then 249 else 185) else (if b < 0x27 then 39 else 106)
            else
              if b < 0x2c then
                if b < 0x2a then (if b < 0x29 then 77 else 228) else (if b < 0x2b then 166 else 114)
              else
                if b < 0x2e then (if b < 0x2d then 154 else 201) else (if b < 0x2f then 9 else 120)
          else
            if b < 0x38 then
              if b < 0x34 then
                if b < 0x32 then (if b < 0x31 then 101 else 47) else (if b < 0x33 then 138 else 5)
              else
                if b < 0x36 then (if b < 0x35 then 33 else 15) else (if b < 0x37 then 225 else 36)
            else
              if b < 0x3c then
                if b < 0x3a then (if b < 0x39 then 18 else 240) else (if b < 0x3b then 130 else 69)
              else
                if b < 0x3e then (if b < 0x3d then 53 else 147) else (if b < 0x3f then 218 else 142)
      else
        if b < 0x60 then
          if b < 0x50 then
            if b < 0x48 then
              if b < 0x44 then
                if b < 0x42 then (if b < 0x41 then 150 else 143) else (if b < 0x43 then 219 else 189)
              else
                if b < 0x46 then (if b < 0x45 then 54 else 208) else (if b < 0x47 then 206 else 148)
            else
              if b < 0x4c then
                if b < 0x4a then (if b < 0x49 then 19 else 92) else (if b < 0x4b then 210 else 241)
              else
                if b < 0x4e then (if b < 0x4d then 64 else 70) else (if b < 0x4f then 131 else 56)
          else
            if b < 0x58 then
              if b < 0x54 then
                if b < 0x52 then (if b < 0x51 then 102 else 221) else (if b < 0x53 then 253 else 48)
              else
                if b < 0x56 then (if b < 0x55 then 191 else 6) else (if b < 0x57 then 139 else 98)
            else
              if b < 0x5c then
                if b < 0x5a then (if b < 0x59 then 179 else 37) else (if b < 0x5b then 226 else 152)
              else
                if b < 0x5e then (if b < 0x5d then 34 else 136) else (if b < 0x5f then 145 else 16)
        else
          if b < 0x70 then
            if b < 0x68 then
              if b < 0x64 then
                if b < 0x62 then (if b < 0x61 then 126 else 110) else (if b < 0x63 then 72 else 195)
              else
                if b < 0x66 then (if b < 0x65 then 163 else 182) else (if b < 0x67 then 30 else 66)
            else
              if b < 0x6c then
                if b < 0x6a then (if b < 0x69 then 58 else 107) else (if b < 0x6b then 40 else 84)
              else
                if b < 0x6e then (if b < 0x6d then 250 else 133) else (if b < 0x6f then 61 else 186)
          else
            if b < 0x78 then
              if b < 0x74 then
                if b < 0x72 then (if b < 0x71 then 43 else 121) else (if b < 0x73 then 10 else 21)
              else
                if b < 0x76 then (if b < 0x75 then 155 else 159) else (if b < 0x77 then 94 else 202)
            else
              if b < 0x7c then
                if b < 0x7a then (if b < 0x79 then 78 else 212) else (if b < 0x7b then 172 else 229)
              else
                if b < 0x7e then (if b < 0x7d then 243 else 115) else (if b < 0x7f then 167 else 87)
    else
      if b < 0xc0 then
        if b < 0xa0 then
          if b < 0x90 then
            if b < 0x88 then
              if b < 0x84 then
                if b < 0x82 then (if b < 0x81 then 175 else 88) else (if b < 0x83 then 168 else 80)
              else
                if b < 0x86 then (if b < 0x85 then 244 else 234) else (if b < 0x87 then 214 else 116)
            else
              if b < 0x8c then
                if b < 0x8a then (if b < 0x89 then 79 else 174) else (if b < 0x8b then 233 else 213)
              else
                if b < 0x8e then (if b < 0x8d then 231 else 230) else (if b < 0x8f then 173 else 232)
          else
            if b < 0x98 then
              if b < 0x94 then
                if b < 0x92 then (if b < 0x91 then 44 else 215) else (if b < 0x93 then 117 else 122)
              else
                if b < 0x96 then (if b < 0x95 then 235 else 22) else (if b < 0x97 then 11 else 245)
            else
              if b < 0x9c then
                if b < 0x9a then (if b < 0x99 then 89 else 203) else (if b < 0x9b then 95 else 176)
              else
                if b < 0x9e then (if b < 0x9d then 156 else 169) else (if b < 0x9f then 81 else 160)
        else
          if b < 0xb0 then
            if b < 0xa8 then
              if b < 0xa4 then
                if b < 0xa2 then (if b < 0xa1 then 127 else 12) else (if b < 0xa3 then 246 else 111)
              else
                if b < 0xa6 then (if b < 0xa5 then 23 else 196) else (if b < 0xa7 then 73 else 236)
            else
              if b < 0xac then
                if b < 0xaa then (if b < 0xa9 then 216 else 67) else (if b < 0xab then 31 else 45)
              else
                if b < 0xae then (if b < 0xad then 164 else 118) else (if b < 0xaf then 123 else 183)
          else
            if b < 0xb8 then
              if b < 0xb4 then
                if b < 0xb2 then (if b < 0xb1 then 204 else 187) else (if b < 0xb3 then 62 else 90)
              else
                if b < 0xb6 then (if b < 0xb5 then 251 else 96) else (if b < 0xb7 then 177 else 134)
            else
              if b < 0xbc then
                if b < 0xba then (if b < 0xb9 then 59 else 82) else (if b < 0xbb then 161 else 108)
              else
                if b < 0xbe then (if b < 0xbd then 170 else 85) else (if b < 0xbf then 41 else 157)
      else
        if b < 0xe0 then
          if b < 0xd0 then
            if b < 0xc8 then
              if b < 0xc4 then
                if b < 0xc2 then (if b < 0xc1 then 151 else 178) else (if b < 0xc3 then 135 else 144)
              else
                if b < 0xc6 then (if b < 0xc5 then 97 else 190) else (if b < 0xc7 then 220 else 252)
            else
              if b < 0xcc then
                if b < 0xca then (if b < 0xc9 then 188 else 149) else (if b < 0xcb then 207 else 205)
              else
                if b < 0xce then (if b < 0xcd then 55 else 63) else (if b < 0xcf then 91 else 209)
          else
            if b < 0xd8 then
              if b < 0xd4 then
                if b < 0xd2 then (if b < 0xd1 then 83 else 57) else (if b < 0xd3 then 132 else 60)
              else
                if b < 0xd6 then (if b < 0xd5 then 65 else 162) else (if b < 0xd7 then 109 else 71)
            else
              if b < 0xdc then
                if b < 0xda then (if b < 0xd9 then 20 else 42) else (if b < 0xdb then 158 else 93)
              else
                if b < 0xde then (if b < 0xdd then 86 else 242) else (if b < 0xdf then 211 else 171)
        else
          if b < 0xf0 then
            if b < 0xe8 then
              if b < 0xe4 then
                if b < 0xe2 then (if b < 0xe1 then 68 else 17) else (if b < 0xe3 then 146 else 217)
              else
                if b < 0xe6 then (if b < 0xe5 then 35 else 32) else (if b < 0xe7 then 46 else 137)
            else
              if b < 0xec then
                if b < 0xea then (if b < 0xe9 then 180 else 124) else (if b < 0xeb then 184 else 38)
              else
                if b < 0xee then (if b < 0xed then 119 else 153) else (if b < 0xef then 227 else 165)
          else
            if b < 0xf8 then
              if b < 0xf4 then
                if b < 0xf2 then (if b < 0xf1 then 103 else 74) else (if b < 0xf3 then 237 else 222)
              else
                if b < 0xf6 then (if b < 0xf5 then 197 else 49) else (if b < 0xf7 then 254 else 24)
            else
              if b < 0xfc then
                if b < 0xfa then (if b < 0xf9 then 13 else 99) else (if b < 0xfb then 140 else 128)
              else
                if b < 0xfe then (if b < 0xfd then 192 else 247) else (if b < 0xff then 112 else 7)
  }

  /** The S-box. */
  function Fbsub(b: byte): byte {
    if b < 0x80 then
      if b < 0x40 then
        if b < 0x20 then
          if b < 0x10 then
            At(b, 99, 124, 119, 123, 242, 107, 111, 197, 48, 1, 103, 43, 254, 215, 171, 118)
          else
            At(b - 0x10, 202, 130, 201, 125, 250, 89, 71, 240, 173, 212, 162, 175, 156, 164, 114, 192)
        else
          if b < 0x30 then
            At(b - 0x20, 183, 253, 147, 38, 54, 63, 247, 204, 52, 165, 229, 241, 113, 216, 49, 21)
          else
            At(b - 0x30, 4, 199, 35, 195, 24, 150, 5, 154, 7, 18, 128, 226, 235, 39, 178, 117)
      else
        if b < 0x60 then
          if b < 0x50 then
            At(b - 0x40, 9, 131, 44, 26, 27, 110, 90, 160, 82, 59, 214, 179, 41, 227, 47, 132)
          else
            At(b - 0x50, 83, 209, 0, 237, 32, 252, 177, 91, 106, 203, 190, 57, 74, 76, 88, 207)
        else
          if b < 0x70 then
            At(b - 0x60, 208, 239, 170, 251, 67, 77, 51, 133, 69, 249, 2, 127, 80, 60, 159, 168)
          else
            At(b - 0x70, 81, 163, 64, 143, 146, 157, 56, 245, 188, 182, 218, 33, 16, 255, 243, 210)
    else
      if b < 0xc0 then
        if b < 0xa0 then
          if b < 0x90 then
            At(b - 0x80, 205, 12, 19, 236, 95, 151, 68, 23, 196, 167, 126, 61, 100, 93, 25, 115)
          else
            At(b - 0x90, 96, 129, 79, 220, 34, 42, 144, 136, 70, 238, 184, 20, 222, 94, 11, 219)
        else
          if b < 0xb0 then
            At(b - 0xa0, 224, 50, 58, 10, 73, 6, 36, 92, 194, 211, 172, 98, 145, 149, 228, 121)
          else
            At(b - 0xb0, 231, 200, 55, 109, 141, 213, 78, 169, 108, 86, 244, 234, 101, 122, 174, 8)
      else
        if b < 0xe0 then
          if b < 0xd0 then
            At(b - 0xc0, 186, 120, 37, 46, 28, 166, 180, 198, 232, 221, 116, 31, 75, 189, 139, 138)
          else
            At(b - 0xd0, 112, 62, 181, 102, 72, 3, 246, 14, 97, 53, 87, 185, 134, 193, 29, 158)
        else
          if b < 0xf0 then
            At(b - 0xe0, 225, 248, 152, 17, 105, 217, 142, 148, 155, 30, 135, 233, 206, 85, 40, 223)
          else
            At(b - 0xf0, 140, 161, 137, 13, 191, 230, 66, 104, 65, 153, 45, 15, 176, 84, 187, 22)
  }

  /** Its inverse. */
  function Rbsub(b: byte): byte {
    if b < 0x80 then
      if b < 0x40 then
        if b < 0x20 then
          if b < 0x10 then
            At(b, 82, 9, 106, 213, 48, 54, 165, 56, 191, 64, 163, 158, 129, 243, 215, 251)
          else
            At(b - 0x10, 124, 227, 57, 130, 155, 47, 255, 135, 52, 142, 67, 68, 196, 222, 233, 203)
        else
          if b < 0x30 then
            At(b - 0x20, 84, 123, 148, 50, 166, 194, 35, 61, 238, 76, 149, 11, 66, 250, 195, 78)
          else
            At(b - 0x30, 8, 46, 161, 102, 40, 217, 36, 178, 118, 91, 162, 73, 109, 139, 209, 37)
      else
        if b < 0x60 then
          if b < 0x50 then
            At(b - 0x40, 114, 248, 246, 100, 134, 104, 152, 22, 212, 164, 92, 204, 93, 101, 182, 146)
          else
            At(b - 0x50, 108, 112, 72, 80, 253, 237, 185, 218, 94, 21, 70, 87, 167, 141, 157, 132)
        else
          if b < 0x70 then
            At(b - 0x60, 144, 216, 171, 0, 140, 188, 211, 10, 247, 228, 88, 5, 184, 179, 69, 6)
          else
            At(b - 0x70, 208, 44, 30, 143, 202, 63, 15, 2, 193, 175, 189, 3, 1, 19, 138, 107)
    else
      if b < 0xc0 then
        if b < 0xa0 then
          if b < 0x90 then
            At(b - 0x80, 58, 145, 17, 65, 79, 103, 220, 234, 151, 242, 207, 206, 240, 180, 230, 115)
          else
            At(b - 0x90, 150, 172, 116, 34, 231, 173, 53, 133, 226, 249, 55, 232, 28, 117, 223, 110)
        else
          if b < 0xb0 then
            At(b - 0xa0, 71, 241, 26, 113, 29, 41, 197, 137, 111, 183, 98, 14, 170, 24, 190, 27)
          else
            At(b - 0xb0, 252, 86, 62, 75, 198, 210, 121, 32, 154, 219, 192, 254, 120, 205, 90, 244)
      else
        if b < 0xe0 then
          if b < 0xd0 then
            At(b - 0xc0, 31, 221, 168, 51, 136, 7, 199, 49, 177, 18, 16, 89, 39, 128, 236, 95)
          else
            At(b - 0xd0, 96, 81, 127, 169, 25, 181, 74, 13, 45, 229, 122, 159, 147, 201, 156, 239)
        else
          if b < 0xf0 then
            At(b - 0xe0, 160, 224, 59, 77, 174, 42, 245, 176, 200, 235, 187, 60, 131, 83, 153, 97)
          else
            At(b - 0xf0, 23, 43, 4, 126, 186, 119, 214, 38, 225, 105, 20, 99, 85, 33, 12, 125)
  }

  /** Mixed columns of the S-box. */
  function FtableBits(b: byte): bv32 {
    if b < 0x80 then
      if b < 0x40 then
        if b < 0x20 then
          if b < 0x10 then
            AtWord(b,
              0xa56363c6, 0x847c7cf8, 0x997777ee, 0x8d7b7bf6, 0x0df2f2ff, 0xbd6b6bd6, 0xb16f6fde, 0x54c5c591,
              0x50303060, 0x03010102, 0xa96767ce, 0x7d2b2b56, 0x19fefee7, 0x62d7d7b5, 0xe6abab4d, 0x9a7676ec)
          else
            AtWord(b - 0x10,
              0x45caca8f, 0x9d82821f, 0x40c9c989, 0x877d7dfa, 0x15fafaef, 0xeb5959b2, 0xc947478e, 0x0bf0f0fb,
              0xecadad41, 0x67d4d4b3, 0xfda2a25f, 0xeaafaf45, 0xbf9c9c23, 0xf7a4a453, 0x967272e4, 0x5bc0c09b)
        else
          if b < 0x30 then
            AtWord(b - 0x20,
              0xc2b7b775, 0x1cfdfde1, 0xae93933d, 0x6a26264c, 0x5a36366c, 0x413f3f7e, 0x02f7f7f5, 0x4fcccc83,
              0x5c343468, 0xf4a5a551, 0x34e5e5d1, 0x08f1f1f9, 0x937171e2, 0x73d8d8ab, 0x53313162, 0x3f15152a)
          else
            AtWord(b - 0x30,
              0x0c040408, 0x52c7c795, 0x65232346, 0x5ec3c39d, 0x28181830, 0xa1969637, 0x0f05050a, 0xb59a9a2f,
              0x0907070e, 0x36121224, 0x9b80801b, 0x3de2e2df, 0x26ebebcd, 0x6927274e, 0xcdb2b27f, 0x9f7575ea)
      else
        if b < 0x60 then
          if b < 0x50 then
            AtWord(b - 0x40,
              0x1b090912, 0x9e83831d, 0x742c2c58, 0x2e1a1a34, 0x2d1b1b36, 0xb26e6edc, 0xee5a5ab4, 0xfba0a05b,
              0xf65252a4, 0x4d3b3b76, 0x61d6d6b7, 0xceb3b37d, 0x7b292952, 0x3ee3e3dd, 0x712f2f5e, 0x97848413)
          else
            AtWord(b - 0x50,
              0xf55353a6, 0x68d1d1b9, 0x00000000, 0x2cededc1, 0x60202040, 0x1ffcfce3, 0xc8b1b179, 0xed5b5bb6,
              0xbe6a6ad4, 0x46cbcb8d, 0xd9bebe67, 0x4b393972, 0xde4a4a94, 0xd44c4c98, 0xe85858b0, 0x4acfcf85)
        else
          if b < 0x70 then
            AtWord(b - 0x60,
              0x6bd0d0bb, 0x2aefefc5, 0xe5aaaa4f, 0x16fbfbed, 0xc5434386, 0xd74d4d9a, 0x55333366, 0x94858511,
              0xcf45458a, 0x10f9f9e9, 0x06020204, 0x817f7ffe, 0xf05050a0, 0x443c3c78, 0xba9f9f25, 0xe3a8a84b)
          else
            AtWord(b - 0x70,
              0xf35151a2, 0xfea3a35d, 0xc0404080, 0x8a8f8f05, 0xad92923f, 0xbc9d9d21, 0x48383870, 0x04f5f5f1,
              0xdfbcbc63, 0xc1b6b677, 0x75dadaaf, 0x63212142, 0x30101020, 0x1affffe5, 0x0ef3f3fd, 0x6dd2d2bf)
    else
      if b < 0xc0 then
        if b < 0xa0 then
          if b < 0x90 then
            AtWord(b - 0x80,
              0x4ccdcd81, 0x140c0c18, 0x35131326, 0x2fececc3, 0xe15f5fbe, 0xa2979735, 0xcc444488, 0x3917172e,
              0x57c4c493, 0xf2a7a755, 0x827e7efc, 0x473d3d7a, 0xac6464c8, 0xe75d5dba, 0x2b191932, 0x957373e6)
          else
            AtWord(b - 0x90,
              0xa06060c0, 0x98818119, 0xd14f4f9e, 0x7fdcdca3, 0x66222244, 0x7e2a2a54, 0xab90903b, 0x8388880b,
              0xca46468c, 0x29eeeec7, 0xd3b8b86b, 0x3c141428, 0x79dedea7, 0xe25e5ebc, 0x1d0b0b16, 0x76dbdbad)
        else
          if b < 0xb0 then
            AtWord(b - 0xa0,
              0x3be0e0db, 0x56323264, 0x4e3a3a74, 0x1e0a0a14, 0xdb494992, 0x0a06060c, 0x6c242448, 0xe45c5cb8,
              0x5dc2c29f, 0x6ed3d3bd, 0xefacac43, 0xa66262c4, 0xa8919139, 0xa4959531, 0x37e4e4d3, 0x8b7979f2)
          else
            AtWord(b - 0xb0,
              0x32e7e7d5, 0x43c8c88b, 0x5937376e, 0xb76d6dda, 0x8c8d8d01, 0x64d5d5b1, 0xd24e4e9c, 0xe0a9a949,
              0xb46c6cd8, 0xfa5656ac, 0x07f4f4f3, 0x25eaeacf, 0xaf6565ca, 0x8e7a7af4, 0xe9aeae47, 0x18080810)
      else
        if b < 0xe0 then
          if b < 0xd0 then
            AtWord(b - 0xc0,
              0xd5baba6f, 0x887878f0, 0x6f25254a, 0x722e2e5c, 0x241c1c38, 0xf1a6a657, 0xc7b4b473, 0x51c6c697,
              0x23e8e8cb, 0x7cdddda1, 0x9c7474e8, 0x211f1f3e, 0xdd4b4b96, 0xdcbdbd61, 0x868b8b0d, 0x858a8a0f)
          else
            AtWord(b - 0xd0,
              0x907070e0, 0x423e3e7c, 0xc4b5b571, 0xaa6666cc, 0xd8484890, 0x05030306, 0x01f6f6f7, 0x120e0e1c,
              0xa36161c2, 0x5f35356a, 0xf95757ae, 0xd0b9b969, 0x91868617, 0x58c1c199, 0x271d1d3a, 0xb99e9e27)
        else
          if b < 0xf0 then
            AtWord(b - 0xe0,
              0x38e1e1d9, 0x13f8f8eb, 0xb398982b, 0x33111122, 0xbb6969d2, 0x70d9d9a9, 0x898e8e07, 0xa7949433,
              0xb69b9b2d, 0x221e1e3c, 0x92878715, 0x20e9e9c9, 0x49cece87, 0xff5555aa, 0x78282850, 0x7adfdfa5)
          else
            AtWord(b - 0xf0,
              0x8f8c8c03, 0xf8a1a159, 0x80898909, 0x170d0d1a, 0xdabfbf65, 0x31e6e6d7, 0xc6424284, 0xb86868d0,
              0xc3414182, 0xb0999929, 0x772d2d5a, 0x110f0f1e, 0xcbb0b07b, 0xfc5454a8, 0xd6bbbb6d, 0x3a16162c)
  }

  /** Unmixed columns of the inverse S-box. */
  function RtableBits(b: byte): bv32 {
    if b < 0x80 then
      if b < 0x40 then
        if b < 0x20 then
          if b < 0x10 then
            AtWord(b,
              0x50a7f451, 0x5365417e, 0xc3a4171a, 0x965e273a, 0xcb6bab3b, 0xf1459d1f, 0xab58faac, 0x9303e34b,
              0x55fa3020, 0xf66d76ad, 0x9176cc88, 0x254c02f5, 0xfcd7e54f, 0xd7cb2ac5, 0x80443526, 0x8fa362b5)
          else
            AtWord(b - 0x10,
              0x495ab1de, 0x671bba25, 0x980eea45, 0xe1c0fe5d, 0x02752fc3, 0x12f04c81, 0xa397468d, 0xc6f9d36b,
              0xe75f8f03, 0x959c9215, 0xeb7a6dbf, 0xda595295, 0x2d83bed4, 0xd3217458, 0x2969e049, 0x44c8c98e)
        else
          if b < 0x30 then
            AtWord(b - 0x20,
              0x6a89c275, 0x78798ef4, 0x6b3e5899, 0xdd71b927, 0xb64fe1be, 0x17ad88f0, 0x66ac20c9, 0xb43ace7d,
              0x184adf63, 0x82311ae5, 0x60335197, 0x457f5362, 0xe07764b1, 0x84ae6bbb, 0x1ca081fe, 0x942b08f9)
          else
            AtWord(b - 0x30,
              0x58684870, 0x19fd458f, 0x876cde94, 0xb7f87b52, 0x23d373ab, 0xe2024b72, 0x578f1fe3, 0x2aab5566,
              0x0728ebb2, 0x03c2b52f, 0x9a7bc586, 0xa50837d3, 0xf2872830, 0xb2a5bf23, 0xba6a0302, 0x5c8216ed)
      else
        if b < 0x60 then
          if b < 0x50 then
            AtWord(b - 0x40,
              0x2b1ccf8a, 0x92b479a7, 0xf0f207f3, 0xa1e2694e, 0xcdf4da65, 0xd5be0506, 0x1f6234d1, 0x8afea6c4,
              0x9d532e34, 0xa055f3a2, 0x32e18a05, 0x75ebf6a4, 0x39ec830b, 0xaaef6040, 0x069f715e, 0x51106ebd)
          else
            AtWord(b - 0x50,
              0xf98a213e, 0x3d06dd96, 0xae053edd, 0x46bde64d, 0xb58d5491, 0x055dc471, 0x6fd40604, 0xff155060,
              0x24fb9819, 0x97e9bdd6, 0xcc434089, 0x779ed967, 0xbd42e8b0, 0x888b8907, 0x385b19e7, 0xdbeec879)
        else
          if b < 0x70 then
            AtWord(b - 0x60,
              0x470a7ca1, 0xe90f427c, 0xc91e84f8, 0x00000000, 0x83868009, 0x48ed2b32, 0xac70111e, 0x4e725a6c,
              0xfbff0efd, 0x5638850f, 0x1ed5ae3d, 0x27392d36, 0x64d90f0a, 0x21a65c68, 0xd1545b9b, 0x3a2e3624)
          else
            AtWord(b - 0x70,
              0xb1670a0c, 0x0fe75793, 0xd296eeb4, 0x9e919b1b, 0x4fc5c080, 0xa220dc61, 0x694b775a, 0x161a121c,
              0x0aba93e2, 0xe52aa0c0, 0x43e0223c, 0x1d171b12, 0x0b0d090e, 0xadc78bf2, 0xb9a8b62d, 0xc8a91e14)
    else
      if b < 0xc0 then
        if b < 0xa0 then
          if b < 0x90 then
            AtWord(b - 0x80,
              0x8519f157, 0x4c0775af, 0xbbdd99ee, 0xfd607fa3, 0x9f2601f7, 0xbcf5725c, 0xc53b6644, 0x347efb5b,
              0x7629438b, 0xdcc623cb, 0x68fcedb6, 0x63f1e4b8, 0xcadc31d7, 0x10856342, 0x40229713, 0x2011c684)
          else
            AtWord(b - 0x90,
              0x7d244a85, 0xf83dbbd2, 0x1132f9ae, 0x6da129c7, 0x4b2f9e1d, 0xf330b2dc, 0xec52860d, 0xd0e3c177,
              0x6c16b32b, 0x99b970a9, 0xfa489411, 0x2264e947, 0xc48cfca8, 0x1a3ff0a0, 0xd82c7d56, 0xef903322)
        else
          if b < 0xb0 then
            AtWord(b - 0xa0,
              0xc74e4987, 0xc1d138d9, 0xfea2ca8c, 0x360bd498, 0xcf81f5a6, 0x28de7aa5, 0x268eb7da, 0xa4bfad3f,
              0xe49d3a2c, 0x0d927850, 0x9bcc5f6a, 0x62467e54, 0xc2138df6, 0xe8b8d890, 0x5ef7392e, 0xf5afc382)
          else
            AtWord(b - 0xb0,
              0xbe805d9f, 0x7c93d069, 0xa92dd56f, 0xb31225cf, 0x3b99acc8, 0xa77d1810, 0x6e639ce8, 0x7bbb3bdb,
              0x097826cd, 0xf418596e, 0x01b79aec, 0xa89a4f83, 0x656e95e6, 0x7ee6ffaa, 0x08cfbc21, 0xe6e815ef)
      else
        if b < 0xe0 then
          if b < 0xd0 then
            AtWord(b - 0xc0,
              0xd99be7ba, 0xce366f4a, 0xd4099fea, 0xd67cb029, 0xafb2a431, 0x31233f2a, 0x3094a5c6, 0xc066a235,
              0x37bc4e74, 0xa6ca82fc, 0xb0d090e0, 0x15d8a733, 0x4a9804f1, 0xf7daec41, 0x0e50cd7f, 0x2ff69117)
          else
            AtWord(b - 0xd0,
              0x8dd64d76, 0x4db0ef43, 0x544daacc, 0xdf0496e4, 0xe3b5d19e, 0x1b886a4c, 0xb81f2cc1, 0x7f516546,
              0x04ea5e9d, 0x5d358c01, 0x737487fa, 0x2e410bfb, 0x5a1d67b3, 0x52d2db92, 0x335610e9, 0x1347d66d)
        else
          if b < 0xf0 then
            AtWord(b - 0xe0,
              0x8c61d79a, 0x7a0ca137, 0x8e14f859, 0x893c13eb, 0xee27a9ce, 0x35c961b7, 0xede51ce1, 0x3cb1477a,
              0x59dfd29c, 0x3f73f255, 0x79ce1418, 0xbf37c773, 0xeacdf753, 0x5baafd5f, 0x146f3ddf, 0x86db4478)
          else
            AtWord(b - 0xf0,
              0x81f3afca, 0x3ec468b9, 0x2c342438, 0x5f40a3c2, 0x72c31d16, 0x0c25e2bc, 0x8b493c28, 0x41950dff,
              0x7101a839, 0xdeb30c08, 0x9ce4b4d8, 0x90c15664, 0x6184cb7b, 0x70b632d5, 0x745c6c48, 0x4257b8d0)
  }

  function Ftable(b: byte): Word {
    Unpacked(FtableBits(b))
  }

  function Rtable(b: byte): Word {
    Unpacked(RtableBits(b))
  }

  /** bmul with these tables. */
  function Product(x: byte, y: byte): byte {
    if x != 0 && y != 0 then Ptab(LogSum(Ltab(x), Ltab(y))) else 0
  }

  // ---------------------------------------------------------------- the field

  function By2(y: byte): byte {
    Times2(y)
  }

  function By3(y: byte): byte {
    X(Times2(y), y)
  }

  function By9(y: byte): byte {
    X(Times2(Times2(Times2(y))), y)
  }

  function ByB(y: byte): byte {
    X(X(Times2(Times2(Times2(y))), Times2(y)), y)
  }

  function ByD(y: byte): byte {
    X(X(Times2(Times2(Times2(y))), Times2(Times2(y))), y)
  }

  function ByE(y: byte): byte {
    X(X(Times2(Times2(Times2(y))), Times2(Times2(y))), Times2(y))
  }

  // ---------------------------------------------------------------- products, by rows of sixteen

  lemma Products0(y: byte)
    requires y < 0x10
    ensures Product(0x2, y) == By2(y) && Product(0x3, y) == By3(y) && Product(0x9, y) == By9(y)
    ensures Product(0xB, y) == ByB(y) && Product(0xD, y) == ByD(y) && Product(0xE, y) == ByE(y)
  {
  }

  lemma Products1(y: byte)
    requires 0x10 <= y < 0x20
    ensures Product(0x2, y) == By2(y) && Product(0x3, y) == By3(y) && Product(0x9, y) == By9(y)
    ensures Product(0xB, y) == ByB(y) && Product(0xD, y) == ByD(y) && Product(0xE, y) == ByE(y)
  {
  }

  lemma Products2(y: byte)
    requires 0x20 <= y < 0x30
    ensures Product(0x2, y) == By2(y) && Product(0x3, y) == By3(y) && Product(0x9, y) == By9(y)
    ensures Product(0xB, y) == ByB(y) && Product(0xD, y) == ByD(y) && Product(0xE, y) == ByE(y)
  {
  }

  lemma Products3(y: byte)
    requires 0x30 <= y < 0x40
    ensures Product(0x2, y) == By2(y) && Product(0x3, y) == By3(y) && Product(0x9, y) == By9(y)
    ensures Product(0xB, y) == ByB(y) && Product(0xD, y) == ByD(y) && Product(0xE, y) == ByE(y)
  {
  }

  lemma Products4(y: byte)
    requires 0x40 <= y < 0x50
    ensures Product(0x2, y) == By2(y) && Product(0x3, y) == By3(y) && Product(0x9, y) == By9(y)
    ensures Product(0xB, y) == ByB(y) && Product(0xD, y) == ByD(y) && Product(0xE, y) == ByE(y)
  {
  }

  lemma Products5(y: byte)
    requires 0x50 <= y < 0x60
    ensures Product(0x2, y) == By2(y) && Product(0x3, y) == By3(y) && Product(0x9, y) == By9(y)
    ensures Product(0xB, y) == ByB(y) && Product(0xD, y) == ByD(y) && Product(0xE, y) == ByE(y)
  {
  }

  lemma Products6(y: byte)
    requires 0x60 <= y < 0x70
    ensures Product(0x2, y) == By2(y) && Product(0x3, y) == By3(y) && Product(0x9, y) == By9(y)
    ensures Product(0xB, y) == ByB(y) && Product(0xD, y) == ByD(y) && Product(0xE, y) == ByE(y)
  {
  }

  lemma Products7(y: byte)
    requires 0x70 <= y < 0x80
    ensures Product(0x2, y) == By2(y) && Product(0x3, y) == By3(y) && Product(0x9, y) == By9(y)
    ensures Product(0xB, y) == ByB(y) && Product(0xD, y) == ByD(y) && Product(0xE, y) == ByE(y)
  {
  }

  lemma Products8(y: byte)
    requires 0x80 <= y < 0x90
    ensures Product(0x2, y) == By2(y) && Product(0x3, y) == By3(y) && Product(0x9, y) == By9(y)
    ensures Product(0xB, y) == ByB(y) && Product(0xD, y) == ByD(y) && Product(0xE, y) == ByE(y)
  {
  }

  lemma Products9(y: byte)
    requires 0x90 <= y < 0xa0
    ensures Product(0x2, y) == By2(y) && Product(0x3, y) == By3(y) && Product(0x9, y) == By9(y)
    ensures Product(0xB, y) == ByB(y) && Product(0xD, y) == ByD(y) && Product(0xE, y) == ByE(y)
  {
  }

  lemma ProductsA(y: byte)
    requires 0xa0 <= y < 0xb0
    ensures Product(0x2, y) == By2(y) && Product(0x3, y) == By3(y) && Product(0x9, y) == By9(y)
    ensures Product(0xB, y) == ByB(y) && Product(0xD, y) == ByD(y) && Product(0xE, y) == ByE(y)
  {
  }

  lemma ProductsB(y: byte)
    requires 0xb0 <= y < 0xc0
    ensures Product(0x2, y) == By2(y) && Product(0x3, y) == By3(y) && Product(0x9, y) == By9(y)
    ensures Product(0xB, y) == ByB(y) && Product(0xD, y) == ByD(y) && Product(0xE, y) == ByE(y)
  {
  }

  lemma ProductsC(y: byte)
    requires 0xc0 <= y < 0xd0
    ensures Product(0x2, y) == By2(y) && Product(0x3, y) == By3(y) && Product(0x9, y) == By9(y)
    ensures Product(0xB, y) == ByB(y) && Product(0xD, y) == ByD(y) && Product(0xE, y) == ByE(y)
  {
  }

  lemma ProductsD(y: byte)
    requires 0xd0 <= y < 0xe0
    ensures Product(0x2, y) == By2(y) && Product(0x3, y) == By3(y) && Product(0x9, y) == By9(y)
    ensures Product(0xB, y) == ByB(y) && Product(0xD, y) == ByD(y) && Product(0xE, y) == ByE(y)
  {
  }

  lemma ProductsE(y: byte)
    requires 0xe0 <= y < 0xf0
    ensures Product(0x2, y) == By2(y) && Product(0x3, y) == By3(y) && Product(0x9, y) == By9(y)
    ensures Product(0xB, y) == ByB(y) && Product(0xD, y) == ByD(y) && Product(0xE, y) == ByE(y)
  {
  }

  lemma ProductsF(y: byte)
    requires 0xf0 <= y
    ensures Product(0x2, y) == By2(y) && Product(0x3, y) == By3(y) && Product(0x9, y) == By9(y)
    ensures Product(0xB, y) == ByB(y) && Product(0xD, y) == ByD(y) && Product(0xE, y) == ByE(y)
  {
  }

  /** bmul by each coefficient of MixColumns and of its inverse is the product in the field. */
  lemma Products(y: byte)
    ensures Product(0x2, y) == By2(y) && Product(0x3, y) == By3(y) && Product(0x9, y) == By9(y)
    ensures Product(0xB, y) == ByB(y) && Product(0xD, y) == ByD(y) && Product(0xE, y) == ByE(y)
  {
    hide *;
    if y < 0x10 {
      Products0(y);
    } else if y < 0x20 {
      Products1(y);
    } else if y < 0x30 {
      Products2(y);
    } else if y < 0x40 {
      Products3(y);
    } else if y < 0x50 {
      Products4(y);
    } else if y < 0x60 {
      Products5(y);
    } else if y < 0x70 {
      Products6(y);
    } else if y < 0x80 {
      Products7(y);
    } else if y < 0x90 {
      Products8(y);
    } else if y < 0xa0 {
      Products9(y);
    } else if y < 0xb0 {
      ProductsA(y);
    } else if y < 0xc0 {
      ProductsB(y);
    } else if y < 0xd0 {
      ProductsC(y);
    } else if y < 0xe0 {
      ProductsD(y);
    } else if y < 0xf0 {
      ProductsE(y);
    } else {
      ProductsF(y);
    }
  }

  // ---------------------------------------------------------------- the tables, by rows of sixteen

  lemma Forward0(b: byte)
    requires b < 0x10
    ensures Ftable(b) == Word(By2(Fbsub(b)), Fbsub(b), Fbsub(b), By3(Fbsub(b)))
    ensures Rbsub(Fbsub(b)) == b
  {
  }

  lemma Forward1(b: byte)
    requires 0x10 <= b < 0x20
    ensures Ftable(b) == Word(By2(Fbsub(b)), Fbsub(b), Fbsub(b), By3(Fbsub(b)))
    ensures Rbsub(Fbsub(b)) == b
  {
  }

  lemma Forward2(b: byte)
    requires 0x20 <= b < 0x30
    ensures Ftable(b) == Word(By2(Fbsub(b)), Fbsub(b), Fbsub(b), By3(Fbsub(b)))
    ensures Rbsub(Fbsub(b)) == b
  {
  }

  lemma Forward3(b: byte)
    requires 0x30 <= b < 0x40
    ensures Ftable(b) == Word(By2(Fbsub(b)), Fbsub(b), Fbsub(b), By3(Fbsub(b)))
    ensures Rbsub(Fbsub(b)) == b
  {
  }

  lemma Forward4(b: byte)
    requires 0x40 <= b < 0x50
    ensures Ftable(b) == Word(By2(Fbsub(b)), Fbsub(b), Fbsub(b), By3(Fbsub(b)))
    ensures Rbsub(Fbsub(b)) == b
  {
  }

  lemma Forward5(b: byte)
    requires 0x50 <= b < 0x60
    ensures Ftable(b) == Word(By2(Fbsub(b)), Fbsub(b), Fbsub(b), By3(Fbsub(b)))
    ensures Rbsub(Fbsub(b)) == b
  {
  }

  lemma Forward6(b: byte)
    requires 0x60 <= b < 0x70
    ensures Ftable(b) == Word(By2(Fbsub(b)), Fbsub(b), Fbsub(b), By3(Fbsub(b)))
    ensures Rbsub(Fbsub(b)) == b
  {
  }

  lemma Forward7(b: byte)
    requires 0x70 <= b < 0x80
    ensures Ftable(b) == Word(By2(Fbsub(b)), Fbsub(b), Fbsub(b), By3(Fbsub(b)))
    ensures Rbsub(Fbsub(b)) == b
  {
  }

  lemma Forward8(b: byte)
    requires 0x80 <= b < 0x90
    ensures Ftable(b) == Word(By2(Fbsub(b)), Fbsub(b), Fbsub(b), By3(Fbsub(b)))
    ensures Rbsub(Fbsub(b)) == b
  {
  }

  lemma Forward9(b: byte)
    requires 0x90 <= b < 0xa0
    ensures Ftable(b) == Word(By2(Fbsub(b)), Fbsub(b), Fbsub(b), By3(Fbsub(b)))
    ensures Rbsub(Fbsub(b)) == b
  {
  }

  lemma ForwardA(b: byte)
    requires 0xa0 <= b < 0xb0
    ensures Ftable(b) == Word(By2(Fbsub(b)), Fbsub(b), Fbsub(b), By3(Fbsub(b)))
    ensures Rbsub(Fbsub(b)) == b
  {
  }

  lemma ForwardB(b: byte)
    requires 0xb0 <= b < 0xc0
    ensures Ftable(b) == Word(By2(Fbsub(b)), Fbsub(b), Fbsub(b), By3(Fbsub(b)))
    ensures Rbsub(Fbsub(b)) == b
  {
  }

  lemma ForwardC(b: byte)
    requires 0xc0 <= b < 0xd0
    ensures Ftable(b) == Word(By2(Fbsub(b)), Fbsub(b), Fbsub(b), By3(Fbsub(b)))
    ensures Rbsub(Fbsub(b)) == b
  {
  }

  lemma ForwardD(b: byte)
    requires 0xd0 <= b < 0xe0
    ensures Ftable(b) == Word(By2(Fbsub(b)), Fbsub(b), Fbsub(b), By3(Fbsub(b)))
    ensures Rbsub(Fbsub(b)) == b
  {
  }

  lemma ForwardE(b: byte)
    requires 0xe0 <= b < 0xf0
    ensures Ftable(b) == Word(By2(Fbsub(b)), Fbsub(b), Fbsub(b), By3(Fbsub(b)))
    ensures Rbsub(Fbsub(b)) == b
  {
  }

  lemma ForwardF(b: byte)
    requires 0xf0 <= b
    ensures Ftable(b) == Word(By2(Fbsub(b)), Fbsub(b), Fbsub(b), By3(Fbsub(b)))
    ensures Rbsub(Fbsub(b)) == b
  {
  }

  lemma SBox0(b: byte)
    requires b < 0x10
    ensures IsInverse(b, Unaffine(Fbsub(b)))
  {
  }

  lemma SBox1(b: byte)
    requires 0x10 <= b < 0x20
    ensures IsInverse(b, Unaffine(Fbsub(b)))
  {
  }

  lemma SBox2(b: byte)
    requires 0x20 <= b < 0x30
    ensures IsInverse(b, Unaffine(Fbsub(b)))
  {
  }

  lemma SBox3(b: byte)
    requires 0x30 <= b < 0x40
    ensures IsInverse(b, Unaffine(Fbsub(b)))
  {
  }

  lemma SBox4(b: byte)
    requires 0x40 <= b < 0x50
    ensures IsInverse(b, Unaffine(Fbsub(b)))
  {
  }

  lemma SBox5(b: byte)
    requires 0x50 <= b < 0x60
    ensures IsInverse(b, Unaffine(Fbsub(b)))
  {
  }

  lemma SBox6(b: byte)
    requires 0x60 <= b < 0x70
    ensures IsInverse(b, Unaffine(Fbsub(b)))
  {
  }

  lemma SBox7(b: byte)
    requires 0x70 <= b < 0x80
    ensures IsInverse(b, Unaffine(Fbsub(b)))
  {
  }

  lemma SBox8(b: byte)
    requires 0x80 <= b < 0x90
    ensures IsInverse(b, Unaffine(Fbsub(b)))
  {
  }

  lemma SBox9(b: byte)
    requires 0x90 <= b < 0xa0
    ensures IsInverse(b, Unaffine(Fbsub(b)))
  {
  }

  lemma SBoxA(b: byte)
    requires 0xa0 <= b < 0xb0
    ensures IsInverse(b, Unaffine(Fbsub(b)))
  {
  }

  lemma SBoxB(b: byte)
    requires 0xb0 <= b < 0xc0
    ensures IsInverse(b, Unaffine(Fbsub(b)))
  {
  }

  lemma SBoxC(b: byte)
    requires 0xc0 <= b < 0xd0
    ensures IsInverse(b, Unaffine(Fbsub(b)))
  {
  }

  lemma SBoxD(b: byte)
    requires 0xd0 <= b < 0xe0
    ensures IsInverse(b, Unaffine(Fbsub(b)))
  {
  }

  lemma SBoxE(b: byte)
    requires 0xe0 <= b < 0xf0
    ensures IsInverse(b, Unaffine(Fbsub(b)))
  {
  }

  lemma SBoxF(b: byte)
    requires 0xf0 <= b
    ensures IsInverse(b, Unaffine(Fbsub(b)))
  {
  }

  /** Each S-box entry is the affine transformation of an inverse. */
  lemma SBoxEntry(b: byte)
    ensures IsInverse(b, Unaffine(Fbsub(b))) && Fbsub(b) == Affine(Unaffine(Fbsub(b)))
  {
    AffineUnaffine(Fbsub(b));
    hide *;
    if b < 0x10 {
      SBox0(b);
    } else if b < 0x20 {
      SBox1(b);
    } else if b < 0x30 {
      SBox2(b);
    } else if b < 0x40 {
      SBox3(b);
    } else if b < 0x50 {
      SBox4(b);
    } else if b < 0x60 {
      SBox5(b);
    } else if b < 0x70 {
      SBox6(b);
    } else if b < 0x80 {
      SBox7(b);
    } else if b < 0x90 {
      SBox8(b);
    } else if b < 0xa0 {
      SBox9(b);
    } else if b < 0xb0 {
      SBoxA(b);
    } else if b < 0xc0 {
      SBoxB(b);
    } else if b < 0xd0 {
      SBoxC(b);
    } else if b < 0xe0 {
      SBoxD(b);
    } else if b < 0xf0 {
      SBoxE(b);
    } else {
      SBoxF(b);
    }
  }

  /** ftable has the mixed column of the S-box entry, and the inverse S-box undoes the S-box. */
  lemma ForwardColumn(b: byte)
    ensures Ftable(b) == Word(By2(Fbsub(b)), Fbsub(b), Fbsub(b), By3(Fbsub(b)))
    ensures Rbsub(Fbsub(b)) == b
  {
    hide *;
    if b < 0x10 {
      Forward0(b);
    } else if b < 0x20 {
      Forward1(b);
    } else if b < 0x30 {
      Forward2(b);
    } else if b < 0x40 {
      Forward3(b);
    } else if b < 0x50 {
      Forward4(b);
    } else if b < 0x60 {
      Forward5(b);
    } else if b < 0x70 {
      Forward6(b);
    } else if b < 0x80 {
      Forward7(b);
    } else if b < 0x90 {
      Forward8(b);
    } else if b < 0xa0 {
      Forward9(b);
    } else if b < 0xb0 {
      ForwardA(b);
    } else if b < 0xc0 {
      ForwardB(b);
    } else if b < 0xd0 {
      ForwardC(b);
    } else if b < 0xe0 {
      ForwardD(b);
    } else if b < 0xf0 {
      ForwardE(b);
    } else {
      ForwardF(b);
    }
  }

  lemma Inverse0(b: byte)
    requires b < 0x10
    ensures Rtable(b) == Word(ByE(Rbsub(b)), By9(Rbsub(b)), ByD(Rbsub(b)), ByB(Rbsub(b)))
  {
  }

  lemma Inverse1(b: byte)
    requires 0x10 <= b < 0x20
    ensures Rtable(b) == Word(ByE(Rbsub(b)), By9(Rbsub(b)), ByD(Rbsub(b)), ByB(Rbsub(b)))
  {
  }

  lemma Inverse2(b: byte)
    requires 0x20 <= b < 0x30
    ensures Rtable(b) == Word(ByE(Rbsub(b)), By9(Rbsub(b)), ByD(Rbsub(b)), ByB(Rbsub(b)))
  {
  }

  lemma Inverse3(b: byte)
    requires 0x30 <= b < 0x40
    ensures Rtable(b) == Word(ByE(Rbsub(b)), By9(Rbsub(b)), ByD(Rbsub(b)), ByB(Rbsub(b)))
  {
  }

  lemma Inverse4(b: byte)
    requires 0x40 <= b < 0x50
    ensures Rtable(b) == Word(ByE(Rbsub(b)), By9(Rbsub(b)), ByD(Rbsub(b)), ByB(Rbsub(b)))
  {
  }

  lemma Inverse5(b: byte)
    requires 0x50 <= b < 0x60
    ensures Rtable(b) == Word(ByE(Rbsub(b)), By9(Rbsub(b)), ByD(Rbsub(b)), ByB(Rbsub(b)))
  {
  }

  lemma Inverse6(b: byte)
    requires 0x60 <= b < 0x70
    ensures Rtable(b) == Word(ByE(Rbsub(b)), By9(Rbsub(b)), ByD(Rbsub(b)), ByB(Rbsub(b)))
  {
  }

  lemma Inverse7(b: byte)
    requires 0x70 <= b < 0x80
    ensures Rtable(b) == Word(ByE(Rbsub(b)), By9(Rbsub(b)), ByD(Rbsub(b)), ByB(Rbsub(b)))
  {
  }

  lemma Inverse8(b: byte)
    requires 0x80 <= b < 0x90
    ensures Rtable(b) == Word(ByE(Rbsub(b)), By9(Rbsub(b)), ByD(Rbsub(b)), ByB(Rbsub(b)))
  {
  }

  lemma Inverse9(b: byte)
    requires 0x90 <= b < 0xa0
    ensures Rtable(b) == Word(ByE(Rbsub(b)), By9(Rbsub(b)), ByD(Rbsub(b)), ByB(Rbsub(b)))
  {
  }

  lemma InverseA(b: byte)
    requires 0xa0 <= b < 0xb0
    ensures Rtable(b) == Word(ByE(Rbsub(b)), By9(Rbsub(b)), ByD(Rbsub(b)), ByB(Rbsub(b)))
  {
  }

  lemma InverseB(b: byte)
    requires 0xb0 <= b < 0xc0
    ensures Rtable(b) == Word(ByE(Rbsub(b)), By9(Rbsub(b)), ByD(Rbsub(b)), ByB(Rbsub(b)))
  {
  }

  lemma InverseC(b: byte)
    requires 0xc0 <= b < 0xd0
    ensures Rtable(b) == Word(ByE(Rbsub(b)), By9(Rbsub(b)), ByD(Rbsub(b)), ByB(Rbsub(b)))
  {
  }

  lemma InverseD(b: byte)
    requires 0xd0 <= b < 0xe0
    ensures Rtable(b) == Word(ByE(Rbsub(b)), By9(Rbsub(b)), ByD(Rbsub(b)), ByB(Rbsub(b)))
  {
  }

  lemma InverseE(b: byte)
    requires 0xe0 <= b < 0xf0
    ensures Rtable(b) == Word(ByE(Rbsub(b)), By9(Rbsub(b)), ByD(Rbsub(b)), ByB(Rbsub(b)))
  {
  }

  lemma InverseF(b: byte)
    requires 0xf0 <= b
    ensures Rtable(b) == Word(ByE(Rbsub(b)), By9(Rbsub(b)), ByD(Rbsub(b)), ByB(Rbsub(b)))
  {
  }

  /** rtable has the unmixed column of the inverse S-box entry. */
  lemma InverseColumn(b: byte)
    ensures Rtable(b) == Word(ByE(Rbsub(b)), By9(Rbsub(b)), ByD(Rbsub(b)), ByB(Rbsub(b)))
  {
    hide *;
    if b < 0x10 {
      Inverse0(b);
    } else if b < 0x20 {
      Inverse1(b);
    } else if b < 0x30 {
      Inverse2(b);
    } else if b < 0x40 {
      Inverse3(b);
    } else if b < 0x50 {
      Inverse4(b);
    } else if b < 0x60 {
      Inverse5(b);
    } else if b < 0x70 {
      Inverse6(b);
    } else if b < 0x80 {
      Inverse7(b);
    } else if b < 0x90 {
      Inverse8(b);
    } else if b < 0xa0 {
      Inverse9(b);
    } else if b < 0xb0 {
      InverseA(b);
    } else if b < 0xc0 {
      InverseB(b);
    } else if b < 0xd0 {
      InverseC(b);
    } else if b < 0xe0 {
      InverseD(b);
    } else if b < 0xf0 {
      InverseE(b);
    } else {
      InverseF(b);
    }
  }

  // ---------------------------------------------------------------- the facts

  lemma ForwardEntry(b: byte)
    ensures var s := Fbsub(b); Ftable(b) == Word(Product(2, s), s, s, Product(3, s))
  {
    hide *;
    ForwardColumn(b);
    Products(Fbsub(b));
  }

  lemma InverseEntry(b: byte)
    ensures var s := Rbsub(b); Rtable(b) == Word(Product(0xE, s), Product(0x9, s), Product(0xD, s), Product(0xB, s))
  {
    hide *;
    InverseColumn(b);
    Products(Rbsub(b));
  }

  lemma Linear9(x: byte, y: byte)
    ensures By9(X(x, y)) == X(By9(x), By9(y))
  {
    PowersLinear(x, y);
    hide X, Times2;
    Swap(Times2(Times2(Times2(x))), Times2(Times2(Times2(y))), x, y);
  }

  lemma Sum9(w: byte, x: byte, y: byte, z: byte)
    ensures By9(X(X(X(w, x), y), z)) == X(X(X(By9(w), By9(x)), By9(y)), By9(z))
  {
    hide *;
    Linear9(w, x);
    Linear9(X(w, x), y);
    Linear9(X(X(w, x), y), z);
  }

  lemma LinearB(x: byte, y: byte)
    ensures ByB(X(x, y)) == X(ByB(x), ByB(y))
  {
    PowersLinear(x, y);
    hide X, Times2;
    Swap(Times2(Times2(Times2(x))), Times2(Times2(Times2(y))), Times2(x), Times2(y));
    Swap(X(Times2(Times2(Times2(x))), Times2(x)), X(Times2(Times2(Times2(y))), Times2(y)), x, y);
  }

  lemma SumB(w: byte, x: byte, y: byte, z: byte)
    ensures ByB(X(X(X(w, x), y), z)) == X(X(X(ByB(w), ByB(x)), ByB(y)), ByB(z))
  {
    hide *;
    LinearB(w, x);
    LinearB(X(w, x), y);
    LinearB(X(X(w, x), y), z);
  }

  lemma LinearD(x: byte, y: byte)
    ensures ByD(X(x, y)) == X(ByD(x), ByD(y))
  {
    PowersLinear(x, y);
    hide X, Times2;
    Swap(Times2(Times2(Times2(x))), Times2(Times2(Times2(y))), Times2(Times2(x)), Times2(Times2(y)));
    Swap(X(Times2(Times2(Times2(x))), Times2(Times2(x))), X(Times2(Times2(Times2(y))), Times2(Times2(y))), x, y);
  }

  lemma SumD(w: byte, x: byte, y: byte, z: byte)
    ensures ByD(X(X(X(w, x), y), z)) == X(X(X(ByD(w), ByD(x)), ByD(y)), ByD(z))
  {
    hide *;
    LinearD(w, x);
    LinearD(X(w, x), y);
    LinearD(X(X(w, x), y), z);
  }

  lemma LinearE(x: byte, y: byte)
    ensures ByE(X(x, y)) == X(ByE(x), ByE(y))
  {
    PowersLinear(x, y);
    hide X, Times2;
    Swap(Times2(Times2(Times2(x))), Times2(Times2(Times2(y))), Times2(Times2(x)), Times2(Times2(y)));
    Swap(X(Times2(Times2(Times2(x))), Times2(Times2(x))), X(Times2(Times2(Times2(y))), Times2(Times2(y))), Times2(x),
        Times2(y));
  }

  lemma SumE(w: byte, x: byte, y: byte, z: byte)
    ensures ByE(X(X(X(w, x), y), z)) == X(X(X(ByE(w), ByE(x)), ByE(y)), ByE(z))
  {
    hide *;
    LinearE(w, x);
    LinearE(X(w, x), y);
    LinearE(X(X(w, x), y), z);
  }

  /** What InvMixCol after MixColumns makes of one byte, in each of the four rows. */
  lemma UnmixA(a: byte)
    ensures X(X(X(ByE(By2(a)), ByB(a)), ByD(a)), By9(By3(a))) == a
    ensures X(X(X(By9(By2(a)), ByE(a)), ByB(a)), ByD(By3(a))) == 0
    ensures X(X(X(ByD(By2(a)), By9(a)), ByE(a)), ByB(By3(a))) == 0
    ensures X(X(X(ByB(By2(a)), ByD(a)), By9(a)), ByE(By3(a))) == 0
  {
  }

  lemma UnmixB(b: byte)
    ensures X(X(X(ByE(By3(b)), ByB(By2(b))), ByD(b)), By9(b)) == 0
    ensures X(X(X(By9(By3(b)), ByE(By2(b))), ByB(b)), ByD(b)) == b
    ensures X(X(X(ByD(By3(b)), By9(By2(b))), ByE(b)), ByB(b)) == 0
    ensures X(X(X(ByB(By3(b)), ByD(By2(b))), By9(b)), ByE(b)) == 0
  {
  }

  lemma UnmixC(c: byte)
    ensures X(X(X(ByE(c), ByB(By3(c))), ByD(By2(c))), By9(c)) == 0
    ensures X(X(X(By9(c), ByE(By3(c))), ByB(By2(c))), ByD(c)) == 0
    ensures X(X(X(ByD(c), By9(By3(c))), ByE(By2(c))), ByB(c)) == c
    ensures X(X(X(ByB(c), ByD(By3(c))), By9(By2(c))), ByE(c)) == 0
  {
  }

  lemma UnmixD(d: byte)
    ensures X(X(X(ByE(d), ByB(d)), ByD(By3(d))), By9(By2(d))) == 0
    ensures X(X(X(By9(d), ByE(d)), ByB(By3(d))), ByD(By2(d))) == 0
    ensures X(X(X(ByD(d), By9(d)), ByE(By3(d))), ByB(By2(d))) == 0
    ensures X(X(X(ByB(d), ByD(d)), By9(By3(d))), ByE(By2(d))) == d
  {
  }

  /** Exclusive ors of four rows, regrouped by columns. */
  lemma Transpose(a0: byte, b0: byte, c0: byte, d0: byte, a1: byte, b1: byte, c1: byte, d1: byte,
                  a2: byte, b2: byte, c2: byte, d2: byte, a3: byte, b3: byte, c3: byte, d3: byte)
    ensures X(X(X(X(X(X(a0, b0), c0), d0), X(X(X(a1, b1), c1), d1)), X(X(X(a2, b2), c2), d2)), X(X(X(a3, b3), c3), d3))
         == X(X(X(X(X(X(a0, a1), a2), a3), X(X(X(b0, b1), b2), b3)), X(X(X(c0, c1), c2), c3)), X(X(X(d0, d1), d2), d3))
  {
    hide X;
    Regroup(X(X(a0, b0), c0), d0, X(X(a1, b1), c1), d1, X(X(a2, b2), c2), d2, X(X(a3, b3), c3), d3);
    Regroup(X(a0, b0), c0, X(a1, b1), c1, X(a2, b2), c2, X(a3, b3), c3);
    Regroup(a0, b0, a1, b1, a2, b2, a3, b3);
  }

  lemma UnmixRow0(a: byte, b: byte, c: byte, d: byte)
    ensures X(X(X(ByE(X(X(X(By2(a), By3(b)), c), d)), ByB(X(X(X(a, By2(b)), By3(c)), d))),
              ByD(X(X(X(a, b), By2(c)), By3(d)))), By9(X(X(X(By3(a), b), c), By2(d)))) == a
  {
    hide *;
    SumE(By2(a), By3(b), c, d);
    SumB(a, By2(b), By3(c), d);
    SumD(a, b, By2(c), By3(d));
    Sum9(By3(a), b, c, By2(d));
    Transpose(ByE(By2(a)), ByE(By3(b)), ByE(c), ByE(d),
              ByB(a), ByB(By2(b)), ByB(By3(c)), ByB(d),
              ByD(a), ByD(b), ByD(By2(c)), ByD(By3(d)),
              By9(By3(a)), By9(b), By9(c), By9(By2(d)));
    UnmixA(a);
    UnmixB(b);
    UnmixC(c);
    UnmixD(d);
    ZeroSum(a, b, c, d);
  }

  lemma UnmixRow1(a: byte, b: byte, c: byte, d: byte)
    ensures X(X(X(By9(X(X(X(By2(a), By3(b)), c), d)), ByE(X(X(X(a, By2(b)), By3(c)), d))),
              ByB(X(X(X(a, b), By2(c)), By3(d)))), ByD(X(X(X(By3(a), b), c), By2(d)))) == b
  {
    hide *;
    Sum9(By2(a), By3(b), c, d);
    SumE(a, By2(b), By3(c), d);
    SumB(a, b, By2(c), By3(d));
    SumD(By3(a), b, c, By2(d));
    Transpose(By9(By2(a)), By9(By3(b)), By9(c), By9(d),
              ByE(a), ByE(By2(b)), ByE(By3(c)), ByE(d),
              ByB(a), ByB(b), ByB(By2(c)), ByB(By3(d)),
              ByD(By3(a)), ByD(b), ByD(c), ByD(By2(d)));
    UnmixA(a);
    UnmixB(b);
    UnmixC(c);
    UnmixD(d);
    ZeroSum(a, b, c, d);
  }

  lemma UnmixRow2(a: byte, b: byte, c: byte, d: byte)
    ensures X(X(X(ByD(X(X(X(By2(a), By3(b)), c), d)), By9(X(X(X(a, By2(b)), By3(c)), d))),
              ByE(X(X(X(a, b), By2(c)), By3(d)))), ByB(X(X(X(By3(a), b), c), By2(d)))) == c
  {
    hide *;
    SumD(By2(a), By3(b), c, d);
    Sum9(a, By2(b), By3(c), d);
    SumE(a, b, By2(c), By3(d));
    SumB(By3(a), b, c, By2(d));
    Transpose(ByD(By2(a)), ByD(By3(b)), ByD(c), ByD(d),
              By9(a), By9(By2(b)), By9(By3(c)), By9(d),
              ByE(a), ByE(b), ByE(By2(c)), ByE(By3(d)),
              ByB(By3(a)), ByB(b), ByB(c), ByB(By2(d)));
    UnmixA(a);
    UnmixB(b);
    UnmixC(c);
    UnmixD(d);
    ZeroSum(a, b, c, d);
  }

  lemma UnmixRow3(a: byte, b: byte, c: byte, d: byte)
    ensures X(X(X(ByB(X(X(X(By2(a), By3(b)), c), d)), ByD(X(X(X(a, By2(b)), By3(c)), d))),
              By9(X(X(X(a, b), By2(c)), By3(d)))), ByE(X(X(X(By3(a), b), c), By2(d)))) == d
  {
    hide *;
    SumB(By2(a), By3(b), c, d);
    SumD(a, By2(b), By3(c), d);
    Sum9(a, b, By2(c), By3(d));
    SumE(By3(a), b, c, By2(d));
    Transpose(ByB(By2(a)), ByB(By3(b)), ByB(c), ByB(d),
              ByD(a), ByD(By2(b)), ByD(By3(c)), ByD(d),
              By9(a), By9(b), By9(By2(c)), By9(By3(d)),
              ByE(By3(a)), ByE(b), ByE(c), ByE(By2(d)));
    UnmixA(a);
    UnmixB(b);
    UnmixC(c);
    UnmixD(d);
    ZeroSum(a, b, c, d);
  }

  lemma ZeroSum(a: byte, b: byte, c: byte, d: byte)
    ensures X(X(X(a, 0), 0), 0) == a && X(X(X(0, b), 0), 0) == b && X(X(X(0, 0), c), 0) == c && X(X(X(0, 0), 0), d) == d
  {
    ByteCancel(a, 0);
    ByteCancel(b, 0);
    ByteCancel(c, 0);
    ByteCancel(d, 0);
    ByteCancel(0, b);
    ByteCancel(0, c);
    ByteCancel(0, d);
    ByteCancel(0, 0);
    hide X;
  }

  // ---------------------------------------------------------------- the tables of the program

  function Constants(): Tables {
    Tables(Fbsub, Rbsub, Ftable, Rtable, Ptab, Ltab)
  }

  /** The S-box is that of section 5.1.1 of FIPS 197. */
  lemma ConstantsSBox()
    ensures IsSBox(Constants().fbsub)
  {
    hide Fbsub, IsInverse, Affine, Unaffine;
    forall b: byte ensures IsEntry(b, Constants().fbsub(b)) {
      SBoxEntry(b);
    }
  }

  lemma Undone0(b: byte)
    requires b < 0x40
    ensures Fbsub(Rbsub(b)) == b
  {
  }

  lemma Undone1(b: byte)
    requires 0x40 <= b < 0x80
    ensures Fbsub(Rbsub(b)) == b
  {
  }

  lemma Undone2(b: byte)
    requires 0x80 <= b < 0xc0
    ensures Fbsub(Rbsub(b)) == b
  {
  }

  lemma Undone3(b: byte)
    requires 0xc0 <= b
    ensures Fbsub(Rbsub(b)) == b
  {
  }

  /** The inverse S-box is an inverse on the other side too. */
  lemma ConstantsUndone(b: byte)
    ensures Constants().fbsub(Constants().rbsub(b)) == b
  {
    hide Fbsub, Rbsub;
    if b < 0x40 {
      Undone0(b);
    } else if b < 0x80 {
      Undone1(b);
    } else if b < 0xc0 {
      Undone2(b);
    } else {
      Undone3(b);
    }
  }

  /** And bmul by each coefficient of MixColumns and its inverse is the product in the field. */
  lemma ConstantsMul(y: byte)
    ensures var t := Constants();
            && t.Mul(0x2, y) == Times(0x2, y) && t.Mul(0x3, y) == Times(0x3, y) && t.Mul(0x9, y) == Times(0x9, y)
            && t.Mul(0xB, y) == Times(0xB, y) && t.Mul(0xD, y) == Times(0xD, y) && t.Mul(0xE, y) == Times(0xE, y)
  {
    hide *;
    Coefficients(y);
    Form2(y);
    Form3(y);
    Form9(y);
    FormB(y);
    FormD(y);
    FormE(y);
  }

  lemma Form2(y: byte)
    ensures By2(y) == Times(0x2, y)
  {
  }

  lemma Form3(y: byte)
    ensures By3(y) == Times(0x3, y)
  {
  }

  lemma Form9(y: byte)
    ensures By9(y) == Times(0x9, y)
  {
  }

  lemma FormB(y: byte)
    ensures ByB(y) == Times(0xB, y)
  {
  }

  lemma FormD(y: byte)
    ensures ByD(y) == Times(0xD, y)
  {
  }

  lemma FormE(y: byte)
    ensures ByE(y) == Times(0xE, y)
  {
  }

  lemma MulIsProduct(x: byte, y: byte)
    ensures Constants().Mul(x, y) == Product(x, y)
  {
    hide Ptab, Ltab, LogSum;
  }

  lemma Coefficients(x: byte)
    ensures Constants().Mul(0x2, x) == By2(x) && Constants().Mul(0x3, x) == By3(x)
    ensures Constants().Mul(0x9, x) == By9(x) && Constants().Mul(0xB, x) == ByB(x)
    ensures Constants().Mul(0xD, x) == ByD(x) && Constants().Mul(0xE, x) == ByE(x)
  {
    hide *;
    Products(x);
    MulIsProduct(0x2, x);
    MulIsProduct(0x3, x);
    MulIsProduct(0x9, x);
    MulIsProduct(0xB, x);
    MulIsProduct(0xD, x);
    MulIsProduct(0xE, x);
  }

  lemma ConstantsInverse()
    ensures Constants().Inverse()
  {
    hide Fbsub, Rbsub;
    forall b: byte ensures Constants().rbsub(Constants().fbsub(b)) == b {
      ForwardColumn(b);
    }
  }

  lemma ConstantsMixed()
    ensures Constants().Mixed()
  {
    var t := Constants();
    hide Fbsub, Rbsub, Ftable, Rtable, Product, Tables.Mul;
    forall b: byte ensures t.ftable(b) == Word(t.Mul(2, t.fbsub(b)), t.fbsub(b), t.fbsub(b), t.Mul(3, t.fbsub(b))) {
      ForwardEntry(b);
      MulIsProduct(2, Fbsub(b));
      MulIsProduct(3, Fbsub(b));
    }
    forall b: byte
      ensures t.rtable(b) == Word(t.Mul(0xE, t.rbsub(b)), t.Mul(0x9, t.rbsub(b)), t.Mul(0xD, t.rbsub(b)),
              t.Mul(0xB, t.rbsub(b)))
    {
      InverseEntry(b);
      MulIsProduct(0xE, Rbsub(b));
      MulIsProduct(0x9, Rbsub(b));
      MulIsProduct(0xD, Rbsub(b));
      MulIsProduct(0xB, Rbsub(b));
    }
  }

  lemma CoefficientsLinear(x: byte, y: byte)
    ensures Constants().Mul(0x9, X(x, y)) == X(Constants().Mul(0x9, x), Constants().Mul(0x9, y))
         && Constants().Mul(0xB, X(x, y)) == X(Constants().Mul(0xB, x), Constants().Mul(0xB, y))
    ensures Constants().Mul(0xD, X(x, y)) == X(Constants().Mul(0xD, x), Constants().Mul(0xD, y))
         && Constants().Mul(0xE, X(x, y)) == X(Constants().Mul(0xE, x), Constants().Mul(0xE, y))
  {
    hide *;
    Coefficients(x);
    Coefficients(y);
    Coefficients(X(x, y));
    Linear9(x, y);
    LinearB(x, y);
    LinearD(x, y);
    LinearE(x, y);
  }

  lemma ConstantsLinear9()
    ensures Constants().LinearIn(0x9)
  {
    forall x: byte, y: byte ensures Constants().Mul(0x9, X(x, y))
        == X(Constants().Mul(0x9, x), Constants().Mul(0x9, y)) {
      CoefficientsLinear(x, y);
    }
    hide Constants, X, Tables.Mul;
  }

  lemma ConstantsLinearB()
    ensures Constants().LinearIn(0xB)
  {
    forall x: byte, y: byte ensures Constants().Mul(0xB, X(x, y))
        == X(Constants().Mul(0xB, x), Constants().Mul(0xB, y)) {
      CoefficientsLinear(x, y);
    }
    hide Constants, X, Tables.Mul;
  }

  lemma ConstantsLinearD()
    ensures Constants().LinearIn(0xD)
  {
    forall x: byte, y: byte ensures Constants().Mul(0xD, X(x, y))
        == X(Constants().Mul(0xD, x), Constants().Mul(0xD, y)) {
      CoefficientsLinear(x, y);
    }
    hide Constants, X, Tables.Mul;
  }

  lemma ConstantsLinearE()
    ensures Constants().LinearIn(0xE)
  {
    forall x: byte, y: byte ensures Constants().Mul(0xE, X(x, y))
        == X(Constants().Mul(0xE, x), Constants().Mul(0xE, y)) {
      CoefficientsLinear(x, y);
    }
    hide Constants, X, Tables.Mul;
  }

  lemma ConstantsLinear()
    ensures Constants().Linear()
  {
    ConstantsLinear9();
    ConstantsLinearB();
    ConstantsLinearD();
    ConstantsLinearE();
    hide Constants, Tables.LinearIn;
  }

  lemma ConstantsUnmix(x: Word)
    ensures Constants().InvMixCol(Constants().MixCol(x)) == x
  {
    MixBytes(x);
    var y := Constants().MixCol(x);
    UnmixBytes(y);
    hide *;
    UnmixRow0(x.b0, x.b1, x.b2, x.b3);
    UnmixRow1(x.b0, x.b1, x.b2, x.b3);
    UnmixRow2(x.b0, x.b1, x.b2, x.b3);
    UnmixRow3(x.b0, x.b1, x.b2, x.b3);
  }

  lemma MixBytes(x: Word)
    ensures Constants().MixCol(x) == Word(X(X(X(By2(x.b0), By3(x.b1)), x.b2), x.b3),
                                     X(X(X(x.b0, By2(x.b1)), By3(x.b2)), x.b3),
                                     X(X(X(x.b0, x.b1), By2(x.b2)), By3(x.b3)),
                                     X(X(X(By3(x.b0), x.b1), x.b2), By2(x.b3)))
  {
    hide X, Product, By2, By3, Tables.Mul, Constants;
    Coefficients(x.b0);
    Coefficients(x.b1);
    Coefficients(x.b2);
    Coefficients(x.b3);
  }

  lemma UnmixBytes(y: Word)
    ensures Constants().InvMixCol(y) == Word(X(X(X(ByE(y.b0), ByB(y.b1)), ByD(y.b2)), By9(y.b3)),
                                     X(X(X(By9(y.b0), ByE(y.b1)), ByB(y.b2)), ByD(y.b3)),
                                     X(X(X(ByD(y.b0), By9(y.b1)), ByE(y.b2)), ByB(y.b3)),
                                     X(X(X(ByB(y.b0), ByD(y.b1)), By9(y.b2)), ByE(y.b3)))
  {
    hide X, By9, ByB, ByD, ByE, Tables.Mul, Constants;
    Coefficients(y.b0);
    Coefficients(y.b1);
    Coefficients(y.b2);
    Coefficients(y.b3);
  }

  /** The constant tables have all the facts that the round theorem asks for. */
  lemma ConstantsFacts()
    ensures Constants().Facts()
  {
    ConstantsInverse();
    ConstantsMixed();
    ConstantsLinear();
    forall x: Word ensures Constants().InvMixCol(Constants().MixCol(x)) == x {
      ConstantsUnmix(x);
    }
    hide Constants, Tables.Inverse, Tables.Mixed, Tables.Linear, Tables.InvMixCol, Tables.MixCol;
  }
}
